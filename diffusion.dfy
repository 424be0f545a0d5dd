/** The framework shared by the compartmental diffusion models: the read-only
    graph they run on, the per-iteration report, and the two helpers of the
    base model that every `iteration()` calls (`clean_initial_status` and
    `status_delta`). */
module Diffusion {

  // Every map comprehension below gives 0 as its value outside its range.
  // Dafny's encoding keeps the value expression of a comprehension beyond
  // its domain, so two comprehensions that are equal as maps (for instance
  // two with an empty domain) would otherwise let the verifier equate their
  // value expressions at every key, which contradicts the other facts.

  type Node = int

  /** No entry of `s` is listed twice. */
  ghost predicate Distinct(s: seq<Node>) {
    forall i, j :: 0 <= i < j < |s| ==> s[i] != s[j]
  }

  /** The graph as the models consume it: the nodes in their fixed iteration
      order, the neighbour lists (successors when the graph is directed), the
      predecessor lists and the directedness flag. */
  datatype Graph = Graph(nodes: seq<Node>, adj: map<Node, seq<Node>>, pred: map<Node, seq<Node>>, directed: bool)
  {
    /** Nodes are listed once; every node has neighbour and predecessor lists;
        every listed neighbour or predecessor is a node of the graph. */
    ghost predicate Valid() {
      && Distinct(nodes)
      && (forall u :: u in adj <==> u in nodes)
      && (forall u :: u in pred <==> u in nodes)
      && (forall u, v :: u in adj && v in adj[u] ==> v in nodes)
      && (forall u, v :: u in pred && v in pred[u] ==> v in nodes)
    }

    function NodeSet(): set<Node> {
      set u | u in nodes
    }

    function Neighbors(u: Node): (ns: seq<Node>)
      requires Valid() && u in nodes
      ensures forall v :: v in ns ==> v in nodes
    {
      adj[u]
    }

    function Predecessors(u: Node): (ps: seq<Node>)
      requires Valid() && u in nodes
      ensures forall v :: v in ps ==> v in nodes
    {
      pred[u]
    }
  }

  /** The record one `iteration()` call returns: the iteration index, the
      per-node statuses (full snapshot, delta, or empty), the population of
      each status and the change of each population. */
  datatype IterationResult = IterationResult(
    iteration: nat,
    status: map<Node, int>,
    nodeCount: map<int, int>,
    statusDelta: map<int, int>)

  /** What `status_delta` hands back: the changed nodes, the per-status
      counts of the new map and the per-status count changes. */
  datatype DeltaReport = DeltaReport(delta: map<Node, int>, nodeCount: map<int, int>, statusDelta: map<int, int>)

  /** `clean_initial_status`: every entry whose code is not one of the
      model's statuses is reset to Susceptible (0); nothing else changes. */
  function CleanInitialStatus(status: map<Node, int>, valid: set<int>): (r: map<Node, int>)
    ensures r.Keys == status.Keys
    ensures forall n :: n in status && status[n] in valid ==> r[n] == status[n]
    ensures forall n :: n in status && status[n] !in valid ==> r[n] == 0
    ensures 0 in valid ==> forall n :: n in r ==> r[n] in valid
  {
    map n | n in status :: if n in status && status[n] in valid then status[n] else 0
  }

  /** Number of nodes that hold status `st` in `m`. */
  function Count(m: map<Node, int>, st: int): nat {
    |set n | n in m && m[n] == st|
  }

  /** `status_delta(actual)`, called while `self.status` is `previous`: the
      delta walks the entries of `previous` and keeps those whose status
      differs in `actual`; counts are taken over `actual` for each status;
      the status delta is the new count minus the count in `previous`. */
  function StatusDelta(previous: map<Node, int>, actual: map<Node, int>, statuses: set<int>): (d: DeltaReport)
    requires previous.Keys <= actual.Keys
    ensures forall n :: n in d.delta <==> n in previous && previous[n] != actual[n]
    ensures forall n :: n in d.delta ==> d.delta[n] == actual[n]
    ensures d.nodeCount.Keys == statuses && d.statusDelta.Keys == statuses
    ensures forall st :: st in statuses ==> d.nodeCount[st] == Count(actual, st)
    ensures forall st :: st in statuses ==> d.statusDelta[st] == Count(actual, st) - Count(previous, st)
  {
    DeltaReport(
      map n | n in previous && previous[n] != actual[n] :: if n in previous && previous[n] != actual[n] then actual[n] else 0,
      map st | st in statuses :: if st in statuses then Count(actual, st) else 0,
      map st | st in statuses :: if st in statuses then Count(actual, st) - Count(previous, st) else 0)
  }

  /** The report of a model's first call, over its status codes
      `statuses`: index 0, the whole seeded ledger (or nothing), its
      populations and no change. */
  function FirstResult(status: map<Node, int>, nodeStatus: bool, statuses: set<int>): (res: IterationResult)
    ensures res.iteration == 0
    ensures res.status == if nodeStatus then status else map[]
    ensures res.nodeCount.Keys == statuses && res.statusDelta.Keys == statuses
    ensures forall s :: s in statuses ==> res.nodeCount[s] == Count(status, s) && res.statusDelta[s] == 0
  {
    var d := StatusDelta(status, status, statuses);
    IterationResult(0, if nodeStatus then status else map[], d.nodeCount, d.statusDelta)
  }

  /** Sum of the populations in `counts` over the statuses `sts`. */
  function Total(counts: map<int, int>, sts: seq<int>): int
    requires forall k :: 0 <= k < |sts| ==> sts[k] in counts
  {
    if sts == [] then 0 else counts[sts[0]] + Total(counts, sts[1..])
  }

  /** Sum of the populations of `m` over the statuses `sts`. */
  function SumCounts(m: map<Node, int>, sts: seq<int>): nat {
    if sts == [] then 0 else Count(m, sts[0]) + SumCounts(m, sts[1..])
  }

  /** Number of nodes of `m` whose status is one of `sts`. */
  function CountAmong(m: map<Node, int>, sts: seq<int>): nat {
    |set n | n in m && m[n] in sts|
  }

  /** Summed over distinct statuses, the per-status populations count every
      node whose status is among them exactly once. */
  lemma {:induction false} CountsAddUp(m: map<Node, int>, sts: seq<int>)
    requires forall i, j :: 0 <= i < j < |sts| ==> sts[i] != sts[j]
    ensures SumCounts(m, sts) == CountAmong(m, sts)
  {
    if sts == [] {
      assert (set n | n in m && m[n] in sts) == {};
    } else {
      var rest := sts[1..];
      CountsAddUp(m, rest);
      var head := set n | n in m && m[n] == sts[0];
      var tail := set n | n in m && m[n] in rest;
      assert (set n | n in m && m[n] in sts) == head + tail by {
        forall n | n in m ensures (m[n] in sts) == (m[n] == sts[0] || m[n] in rest) {
          assert sts == [sts[0]] + rest;
        }
      }
      assert head !! tail;
    }
  }

  /** A count table that holds each status's population sums to `SumCounts`. */
  lemma {:induction false} TotalOfCounts(counts: map<int, int>, m: map<Node, int>, sts: seq<int>)
    requires forall k :: 0 <= k < |sts| ==> sts[k] in counts && counts[sts[k]] == Count(m, sts[k])
    ensures Total(counts, sts) == SumCounts(m, sts)
  {
    if sts != [] {
      TotalOfCounts(counts, m, sts[1..]);
    }
  }

  /** When every node of `m` holds one of `sts`, the nodes counted among
      `sts` are all of `m`'s. */
  lemma CountAmongAll(m: map<Node, int>, sts: seq<int>)
    requires forall n :: n in m ==> m[n] in sts
    ensures CountAmong(m, sts) == |m|
  {
    var among := set n | n in m && m[n] in sts;
    assert among == m.Keys by {
      forall n | n in m ensures n in among {
        assert m[n] in sts;
      }
    }
  }

  /** Population conservation: when every node of `m` holds one of the
      distinct statuses `sts` and `counts` holds each status's population,
      the populations add up to the number of nodes. */
  lemma PopulationConserved(counts: map<int, int>, m: map<Node, int>, sts: seq<int>)
    requires forall i, j :: 0 <= i < j < |sts| ==> sts[i] != sts[j]
    requires forall n :: n in m ==> m[n] in sts
    requires forall k :: 0 <= k < |sts| ==> sts[k] in counts && counts[sts[k]] == Count(m, sts[k])
    ensures Total(counts, sts) == |m|
  {
    TotalOfCounts(counts, m, sts);
    CountsAddUp(m, sts);
    CountAmongAll(m, sts);
  }

  /** A table of per-status count changes sums to the change of the summed
      populations. */
  lemma {:induction false} TotalOfDeltas(deltas: map<int, int>, previous: map<Node, int>, actual: map<Node, int>, sts: seq<int>)
    requires forall k :: 0 <= k < |sts| ==> sts[k] in deltas && deltas[sts[k]] == Count(actual, sts[k]) - Count(previous, sts[k])
    ensures Total(deltas, sts) == SumCounts(actual, sts) - SumCounts(previous, sts)
  {
    if sts != [] {
      TotalOfDeltas(deltas, previous, actual, sts[1..]);
    }
  }

  /** The status changes reported by `status_delta` add up to the change in
      the number of nodes between the two maps: zero when both hold the
      same nodes. */
  lemma DeltasAddUp(deltas: map<int, int>, previous: map<Node, int>, actual: map<Node, int>, sts: seq<int>)
    requires forall i, j :: 0 <= i < j < |sts| ==> sts[i] != sts[j]
    requires forall n :: n in previous ==> previous[n] in sts
    requires forall n :: n in actual ==> actual[n] in sts
    requires forall k :: 0 <= k < |sts| ==> sts[k] in deltas && deltas[sts[k]] == Count(actual, sts[k]) - Count(previous, sts[k])
    ensures Total(deltas, sts) == |actual| - |previous|
  {
    TotalOfDeltas(deltas, previous, actual, sts);
    CountsAddUp(actual, sts);
    CountsAddUp(previous, sts);
    CountAmongAll(actual, sts);
    CountAmongAll(previous, sts);
  }

  /** The first report's populations add up to the number of nodes and its
      changes to zero, when every node holds one of the distinct `sts`. */
  lemma FirstCountsAddUp(status: map<Node, int>, nodeStatus: bool, sts: seq<int>)
    requires forall i, j :: 0 <= i < j < |sts| ==> sts[i] != sts[j]
    requires forall u :: u in status ==> status[u] in sts
    ensures var r := FirstResult(status, nodeStatus, set s | s in sts);
      Total(r.nodeCount, sts) == |status| && Total(r.statusDelta, sts) == 0
  {
    var r := FirstResult(status, nodeStatus, set s | s in sts);
    PopulationConserved(r.nodeCount, status, sts);
    DeltasAddUp(r.statusDelta, status, status, sts);
  }

  /** A sequence without repeats has as many distinct entries as entries. */
  lemma {:induction false} DistinctCard(s: seq<Node>)
    requires Distinct(s)
    ensures |set u | u in s| == |s|
  {
    if s != [] {
      var init := s[..|s| - 1];
      var last := s[|s| - 1];
      DistinctCard(init);
      assert (set u | u in s) == (set u | u in init) + {last} by {
        assert s == init + [last];
      }
      assert last !in (set u | u in init);
    }
  }
}
