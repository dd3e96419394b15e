/** Dependency ordering of contracts: the graph walk, the cycle search by tainting, and
    `OrderContracts` on top of them. */
module ContractOrder {

  import opened Common

  // ---------------------------------------------------------------- graphs

  type Adjacency = seq<seq<nat>>

  ghost predicate WellFormed(g: Adjacency) {
    forall u: nat, v: nat :: Edge(g, u, v) ==> v < |g|
  }

  predicate Edge(g: Adjacency, u: nat, v: nat) {
    u < |g| && v in g[u]
  }

  /** A walk along edges; a single node is a walk of no edges. */
  ghost predicate IsWalk(g: Adjacency, p: seq<nat>) {
    && p != []
    && forall i :: 0 < i < |p| ==> Edge(g, p[i - 1], p[i])
  }

  ghost predicate Reaches(g: Adjacency, u: nat, v: nat) {
    exists p :: IsWalk(g, p) && p[0] == u && p[|p| - 1] == v
  }

  ghost predicate OnCycle(g: Adjacency, u: nat) {
    exists v: nat :: Edge(g, u, v) && Reaches(g, v, u)
  }

  ghost predicate ReachesCycle(g: Adjacency, u: nat) {
    exists w: nat :: Reaches(g, u, w) && OnCycle(g, w)
  }

  lemma ReachesSelf(g: Adjacency, u: nat)
    ensures Reaches(g, u, u)
  {
    assert IsWalk(g, [u]);
  }

  lemma ReachesStep(g: Adjacency, u: nat, v: nat, w: nat)
    requires Edge(g, u, v) && Reaches(g, v, w)
    ensures Reaches(g, u, w)
  {
    var p :| IsWalk(g, p) && p[0] == v && p[|p| - 1] == w;
    assert IsWalk(g, [u] + p);
  }

  lemma ReachesThenEdge(g: Adjacency, u: nat, v: nat, w: nat)
    requires Reaches(g, u, v) && Edge(g, v, w)
    ensures Reaches(g, u, w)
  {
    var p :| IsWalk(g, p) && p[0] == u && p[|p| - 1] == v;
    assert IsWalk(g, p + [w]);
  }

  /** A node that reaches a cycle lies on one, or has a neighbour that reaches one. */
  lemma ReachesCycleUnfold(g: Adjacency, u: nat)
    ensures ReachesCycle(g, u) <==> exists v: nat :: Edge(g, u, v) && (Reaches(g, v, u) || ReachesCycle(g, v))
  {
    if ReachesCycle(g, u) {
      var w: nat :| Reaches(g, u, w) && OnCycle(g, w);
      var p :| IsWalk(g, p) && p[0] == u && p[|p| - 1] == w;
      if |p| > 1 {
        assert IsWalk(g, p[1..]) && Edge(g, p[0], p[1]);
        assert Reaches(g, p[1], w);
      }
    }
    if v: nat :| Edge(g, u, v) && (Reaches(g, v, u) || ReachesCycle(g, v)) {
      if Reaches(g, v, u) {
        ReachesSelf(g, u);
      } else {
        var w: nat :| Reaches(g, v, w) && OnCycle(g, w);
        ReachesStep(g, u, v, w);
      }
    }
  }

  lemma CycleReached(g: Adjacency, v: nat, w: nat)
    requires Reaches(g, v, w) && OnCycle(g, w)
    ensures ReachesCycle(g, v)
  {
  }

  lemma UntaintedNeighbours(g: Adjacency, u: nat)
    requires forall v: nat :: Edge(g, u, v) ==> !ReachesCycle(g, v)
    ensures !ReachesCycle(g, u)
  {
    ReachesCycleUnfold(g, u);
    if v: nat :| Edge(g, u, v) && Reaches(g, v, u) {
      CycleReached(g, v, u);
    }
  }

  predicate IsNode(g: Adjacency, u: nat) {
    u < |g|
  }

  ghost function Nodes(g: Adjacency): set<nat> {
    set u: nat | u < |g| && IsNode(g, u)
  }

  /** Post-order: a neighbour is emitted earlier, unless it leads back to the node. */
  ghost predicate PostOrder(g: Adjacency, order: seq<nat>) {
    forall i, v: nat :: 0 <= i < |order| && Edge(g, order[i], v) ==> v in order[..i] || Reaches(g, v, order[i])
  }

  lemma PostOrderAppend(g: Adjacency, order: seq<nat>, node: nat)
    requires PostOrder(g, order)
    requires forall v: nat :: Edge(g, node, v) ==> v in order || Reaches(g, v, node)
    ensures PostOrder(g, order + [node])
  {
    var longer := order + [node];
    forall i, v: nat | 0 <= i < |longer| && Edge(g, longer[i], v)
      ensures v in longer[..i] || Reaches(g, v, longer[i])
    {
      if i < |order| {
        assert longer[..i] == order[..i];
      } else {
        assert longer[..i] == order;
      }
    }
  }

  /** One of the first `k` nodes leads there. */
  ghost predicate ReachedByFirst(g: Adjacency, k: int, x: nat) {
    exists r: nat :: r < k && Reaches(g, r, x)
  }

  /** Whatever the first nodes lead to comes before everything else, for any number of first nodes. */
  ghost predicate NodeByNode(g: Adjacency, order: seq<nat>, count: int) {
    forall k: nat, i, j ::
      k <= count && 0 <= i < |order| && 0 <= j < |order| &&
      ReachedByFirst(g, k, order[i]) && !ReachedByFirst(g, k, order[j]) ==>
        i < j
  }

  /** A list from which no edge leads out holds whatever its nodes lead to. */
  lemma {:induction false} ClosedUnderWalks(g: Adjacency, order: seq<nat>, p: seq<nat>)
    requires forall x, v: nat :: x in order && Edge(g, x, v) ==> v in order
    requires IsWalk(g, p) && p[0] in order
    ensures p[|p| - 1] in order
  {
    if |p| > 1 {
      assert Edge(g, p[0], p[1]);
      ClosedUnderWalks(g, order, p[1..]);
    }
  }

  /** The list of what the first nodes lead to, extended by what the next one leads to. */
  lemma NextNode(g: Adjacency, before: seq<nat>, order: seq<nat>, node: nat)
    requires forall x: nat :: x in before <==> ReachedByFirst(g, node, x)
    requires before <= order && node in order
    requires forall x :: x in order && x !in before ==> Reaches(g, node, x)
    requires forall x, v: nat :: x in order && Edge(g, x, v) ==> v in order
    ensures forall x: nat :: x in order <==> ReachedByFirst(g, node + 1, x)
  {
    forall x: nat ensures x in order <==> ReachedByFirst(g, node + 1, x) {
      if x in before {
        var r: nat :| r < node && Reaches(g, r, x);
      }
      if r: nat :| r < node + 1 && Reaches(g, r, x) {
        if r < node {
          assert ReachedByFirst(g, node, x);
        } else {
          var p :| IsWalk(g, p) && p[0] == r && p[|p| - 1] == x;
          ClosedUnderWalks(g, order, p);
        }
      }
    }
  }

  lemma NextNodeByNode(g: Adjacency, before: seq<nat>, order: seq<nat>, node: nat)
    requires forall x: nat :: x in before <==> ReachedByFirst(g, node, x)
    requires forall x: nat :: x in order <==> ReachedByFirst(g, node + 1, x)
    requires before <= order && NoDuplicates(order) && NodeByNode(g, before, node)
    ensures NodeByNode(g, order, node + 1)
  {
    forall k: nat, i, j | k <= node + 1 && 0 <= i < |order| && 0 <= j < |order|
                          && ReachedByFirst(g, k, order[i]) && !ReachedByFirst(g, k, order[j])
      ensures i < j
    {
      assert order[j] in order;
      if k <= node {
        var r: nat :| r < k && Reaches(g, r, order[i]);
        assert order[i] in before;
        var m :| 0 <= m < |before| && before[m] == order[i];
        assert order[m] == order[i];
        if j < |before| {
          assert before[j] == order[j];
        }
      }
    }
  }

  lemma AllTainted(g: Adjacency, order: seq<nat>, tainted: set<nat>)
    requires Elements(order) == Nodes(g) && tainted <= Nodes(g)
    requires forall x :: x in tainted ==> !ReachesCycle(g, x)
    requires forall j :: 0 <= j < |order| && !ReachesCycle(g, order[j]) ==> order[j] in tainted
    ensures tainted == set u | u in Nodes(g) && !ReachesCycle(g, u)
  {
    forall u | u in Nodes(g) && !ReachesCycle(g, u) ensures u in tainted {
      assert u in Elements(order);
    }
  }

  // ---------------------------------------------------------------- the walker

  class GraphWalker {
    var seen: set<nat>

    constructor ()
      ensures seen == {}
    {
      seen := {};
    }

    /** What a call has emitted since `branch` can be reached from its node, and leads only to what has been seen. */
    ghost predicate Emitted(g: Adjacency, node: nat, branch: seq<nat>, extended: seq<nat>)
      reads this
    {
      && (forall x :: x in extended && x !in branch ==> Reaches(g, node, x))
      && (forall x, v: nat :: x in extended && x !in branch && Edge(g, x, v) ==> v in seen)
    }

    /** Depth-first search. `seen` minus the emitted nodes is the stack of open calls, all of which lead here. */
    method SortDependenciesRecursion(node: nat, g: Adjacency, branch: seq<nat>) returns (extended: seq<nat>)
      requires WellFormed(g) && node < |g|
      requires Elements(branch) <= seen <= Nodes(g)
      requires NoDuplicates(branch) && PostOrder(g, branch)
      requires forall x :: x in seen && x !in branch ==> Reaches(g, x, node)
      modifies this
      ensures Elements(extended) <= seen <= Nodes(g)
      ensures NoDuplicates(extended) && PostOrder(g, extended)
      ensures branch <= extended && old(seen) <= seen && node in seen
      ensures forall x :: x in seen && x !in extended <==> x in old(seen) && x !in branch
      ensures Emitted(g, node, branch, extended)
      decreases Nodes(g) - seen
    {
      if node in seen {
        return branch;
      }
      seen := seen + {node};
      extended := branch;
      ReachesSelf(g, node);
      ghost var open := set x | x in seen && x !in branch;
      for k := 0 to |g[node]|
        invariant Elements(extended) <= seen <= Nodes(g)
        invariant NoDuplicates(extended) && PostOrder(g, extended)
        invariant branch <= extended && old(seen) <= seen && node in seen
        invariant forall x :: x in seen && x !in extended <==> x in open
        invariant forall j :: 0 <= j < k ==> g[node][j] in seen
        invariant Emitted(g, node, branch, extended)
      {
        ghost var earlier := extended;
        assert Edge(g, node, g[node][k]);
        forall x | x in seen && x !in extended
          ensures Reaches(g, x, g[node][k])
        {
          ReachesThenEdge(g, x, node, g[node][k]);
        }
        extended := SortDependenciesRecursion(g[node][k], g, extended);
        forall x | x in extended && x !in earlier ensures Reaches(g, node, x) {
          ReachesStep(g, node, g[node][k], x);
        }
      }
      PostOrderAppend(g, extended, node);
      extended := extended + [node];
    }

    /** Every node once, in post-order, and node by node: what a node leads to comes before what only later nodes do. */
    method GetSortedDependencies(g: Adjacency) returns (order: seq<nat>)
      requires WellFormed(g) && seen == {}
      modifies this
      ensures NoDuplicates(order) && Elements(order) == Nodes(g) && PostOrder(g, order)
      ensures NodeByNode(g, order, |g|)
    {
      order := [];
      for node := 0 to |g|
        invariant Elements(order) == seen <= Nodes(g)
        invariant NoDuplicates(order) && PostOrder(g, order)
        invariant forall x: nat :: x < node ==> x in seen
        invariant forall x, v: nat :: x in order && Edge(g, x, v) ==> v in order
        invariant forall x: nat :: x in order <==> ReachedByFirst(g, node, x)
        invariant NodeByNode(g, order, node)
      {
        order := SortNode(g, node, order);
      }
    }

    /** One node more. */
    method SortNode(g: Adjacency, node: nat, branch: seq<nat>) returns (order: seq<nat>)
      requires WellFormed(g) && node < |g| && Elements(branch) == seen <= Nodes(g)
      requires NoDuplicates(branch) && PostOrder(g, branch)
      requires forall x, v: nat :: x in branch && Edge(g, x, v) ==> v in branch
      requires forall x: nat :: x in branch <==> ReachedByFirst(g, node, x)
      requires NodeByNode(g, branch, node)
      modifies this
      ensures Elements(order) == seen <= Nodes(g) && old(seen) <= seen && node in seen
      ensures NoDuplicates(order) && PostOrder(g, order)
      ensures forall x, v: nat :: x in order && Edge(g, x, v) ==> v in order
      ensures forall x: nat :: x in order <==> ReachedByFirst(g, node + 1, x)
      ensures NodeByNode(g, order, node + 1)
    {
      order := SortDependenciesRecursion(node, g, branch);
      assert forall x :: x in seen <==> x in order;
      NextNode(g, branch, order, node);
      NextNodeByNode(g, branch, order, node);
    }

    /** The nodes from which some cycle can be reached, or `None` when the graph has no cycle. */
    method GetCyclingDependencies(g: Adjacency, order: seq<nat>) returns (cycling: Option<set<nat>>)
      requires WellFormed(g)
      requires NoDuplicates(order) && Elements(order) == Nodes(g) && PostOrder(g, order)
      ensures cycling.None? <==> forall u :: u in Nodes(g) ==> !ReachesCycle(g, u)
      ensures cycling.Some? ==> cycling.value != {} && cycling.value == set u | u in Nodes(g) && ReachesCycle(g, u)
    {
      var tainted: set<nat> := {};
      for i := 0 to |order|
        invariant tainted <= Nodes(g)
        invariant forall x :: x in tainted ==> !ReachesCycle(g, x)
        invariant forall j :: 0 <= j < i && !ReachesCycle(g, order[j]) ==> order[j] in tainted
      {
        var node := order[i];
        assert node in Elements(order);
        var descendants := g[node];
        var taintedDescendants := 0;
        ghost var before := tainted;
        for k := 0 to |descendants|
          invariant before <= tainted <= Nodes(g)
          invariant forall x :: x in tainted ==> !ReachesCycle(g, x)
          invariant 0 <= taintedDescendants <= k
          invariant taintedDescendants == k ==> forall j :: 0 <= j < k ==> descendants[j] in tainted
          invariant !ReachesCycle(g, node) ==> taintedDescendants == k
        {
          var d := descendants[k];
          assert Edge(g, node, d);
          ReachesCycleUnfold(g, node);
          assert !ReachesCycle(g, node) ==> d in order[..i];
          if g[d] == [] || d in tainted {
            if g[d] == [] {
              ReachesCycleUnfold(g, d);
            }
            tainted := tainted + {d};
            taintedDescendants := taintedDescendants + 1;
          }
        }
        if taintedDescendants == |descendants| {
          UntaintedNeighbours(g, node);
          tainted := tainted + {node};
        }
      }
      SameSize(order);
      CardinalityOfSubset(tainted, Nodes(g));
      AllTainted(g, order, tainted);
      if |tainted| == |order| {
        assert tainted == Nodes(g);
        return None;
      }
      assert tainted != Nodes(g);
      ghost var u :| u in Nodes(g) && u !in tainted;
      assert ReachesCycle(g, u);
      cycling := Some((set x | x in order) - tainted);
    }
  }

  // ---------------------------------------------------------------- contracts

  type Dependencies = map<Id, set<Id>>

  type Epochs = map<Id, Epoch>

  /** Contracts without an epoch, the boot contracts, count as deployed at epoch 2.0. */
  function EpochOf(epochs: Epochs, id: Id): Epoch {
    if id in epochs then epochs[id] else EPOCH_2_0
  }

  /** `a` depends on `b`, and both are to be ordered. */
  predicate DependsOn(deps: Dependencies, a: Id, b: Id) {
    a in deps && b in deps && b in deps[a]
  }

  /** `a` was deployed in an earlier epoch than its dependency `b`, whether `b` is to be ordered or not. */
  predicate Inverted(deps: Dependencies, epochs: Epochs, a: Id, b: Id) {
    a in deps && b in deps[a] && EpochOf(epochs, a) < EpochOf(epochs, b)
  }

  /** Only a dependency with an epoch after 2.0 can be too late, and then a contract without an epoch is too early. */
  lemma InvertedIff(deps: Dependencies, epochs: Epochs, a: Id, b: Id)
    ensures Inverted(deps, epochs, a, b) <==>
            a in deps && b in deps[a] && b in epochs && epochs[b] > 0 && (a in epochs ==> epochs[a] < epochs[b])
  {
  }

  ghost predicate IsChain(deps: Dependencies, p: seq<Id>) {
    && p != []
    && forall i :: 0 < i < |p| ==> DependsOn(deps, p[i - 1], p[i])
  }

  ghost predicate LeadsTo(deps: Dependencies, a: Id, b: Id) {
    exists p :: IsChain(deps, p) && p[0] == a && p[|p| - 1] == b
  }

  ghost predicate InCycle(deps: Dependencies, a: Id) {
    exists b :: DependsOn(deps, a, b) && LeadsTo(deps, b, a)
  }

  ghost predicate LeadsToCycle(deps: Dependencies, a: Id) {
    exists b :: LeadsTo(deps, a, b) && InCycle(deps, b)
  }

  /** Every contract comes after all of its dependencies that are to be ordered. */
  ghost predicate Topological(deps: Dependencies, order: seq<Id>) {
    forall i, d :: 0 <= i < |order| && DependsOn(deps, order[i], d) ==> d in order[..i]
  }

  /** One of the first `k` keys leads there. */
  ghost predicate LedFromFirst(deps: Dependencies, keys: seq<Id>, k: int, x: Id) {
    exists r :: 0 <= r < k && r < |keys| && LeadsTo(deps, keys[r], x)
  }

  /** Whatever the first keys lead to comes before everything else, for any number of first keys. */
  ghost predicate KeyByKey(deps: Dependencies, keys: seq<Id>, order: seq<Id>) {
    forall k, i, j ::
      0 <= k <= |keys| && 0 <= i < |order| && 0 <= j < |order| &&
      LedFromFirst(deps, keys, k, order[i]) && !LedFromFirst(deps, keys, k, order[j]) ==>
        i < j
  }

  datatype OrderError =
    | IncorrectContractHeight(contract: Id, dependency: Id)
    | CircularReference(contracts: set<Id>)

  /** Node `i` of `g` stands for `names[i]`, and edges are dependencies. */
  ghost predicate Represents(g: Adjacency, names: seq<Id>, deps: Dependencies) {
    && |g| == |names| && NoDuplicates(names) && Elements(names) == deps.Keys
    && WellFormed(g)
    && forall i: nat, j: nat :: i < |names| && j < |names| ==> (Edge(g, i, j) <==> DependsOn(deps, names[i], names[j]))
  }

  lemma {:induction false} WalkIsChain(g: Adjacency, names: seq<Id>, deps: Dependencies, p: seq<nat>)
    requires Represents(g, names, deps) && IsWalk(g, p) && p[0] < |g|
    ensures p[|p| - 1] < |g| && LeadsTo(deps, names[p[0]], names[p[|p| - 1]])
  {
    if |p| == 1 {
      assert IsChain(deps, [names[p[0]]]);
    } else {
      assert Edge(g, p[0], p[1]);
      WalkIsChain(g, names, deps, p[1..]);
      var q :| IsChain(deps, q) && q[0] == names[p[1]] && q[|q| - 1] == names[p[|p| - 1]];
      assert IsChain(deps, [names[p[0]]] + q);
    }
  }

  function IndexOf(names: seq<Id>, a: Id): (i: nat)
    requires a in names
    ensures i < |names| && names[i] == a
  {
    if names[0] == a then 0 else 1 + IndexOf(names[1..], a)
  }

  lemma {:induction false} ChainIsWalk(g: Adjacency, names: seq<Id>, deps: Dependencies, q: seq<Id>)
    requires Represents(g, names, deps) && IsChain(deps, q) && q[0] in Elements(names)
    ensures q[|q| - 1] in Elements(names) && Reaches(g, IndexOf(names, q[0]), IndexOf(names, q[|q| - 1]))
  {
    if |q| == 1 {
      ReachesSelf(g, IndexOf(names, q[0]));
    } else {
      assert DependsOn(deps, q[0], q[1]);
      ChainIsWalk(g, names, deps, q[1..]);
      ReachesStep(g, IndexOf(names, q[0]), IndexOf(names, q[1]), IndexOf(names, q[|q| - 1]));
    }
  }

  lemma WalksAreChains(g: Adjacency, names: seq<Id>, deps: Dependencies, i: nat, j: nat)
    requires Represents(g, names, deps) && i < |g| && j < |g|
    ensures Reaches(g, i, j) <==> LeadsTo(deps, names[i], names[j])
  {
    if Reaches(g, i, j) {
      var p :| IsWalk(g, p) && p[0] == i && p[|p| - 1] == j;
      WalkIsChain(g, names, deps, p);
    }
    if LeadsTo(deps, names[i], names[j]) {
      var q :| IsChain(deps, q) && q[0] == names[i] && q[|q| - 1] == names[j];
      ChainIsWalk(g, names, deps, q);
    }
  }

  lemma CyclesAreCycles(g: Adjacency, names: seq<Id>, deps: Dependencies, i: nat)
    requires Represents(g, names, deps) && i < |g|
    ensures OnCycle(g, i) <==> InCycle(deps, names[i])
  {
    if v: nat :| Edge(g, i, v) && Reaches(g, v, i) {
      WalksAreChains(g, names, deps, v, i);
    }
    if b :| DependsOn(deps, names[i], b) && LeadsTo(deps, b, names[i]) {
      assert b in Elements(names);
      var v: nat :| v < |names| && names[v] == b;
      WalksAreChains(g, names, deps, v, i);
    }
  }

  lemma LastOfChain(deps: Dependencies, a: Id, b: Id)
    requires a in deps && LeadsTo(deps, a, b)
    ensures b in deps
  {
    var p :| IsChain(deps, p) && p[0] == a && p[|p| - 1] == b;
    if |p| > 1 {
      assert DependsOn(deps, p[|p| - 2], p[|p| - 1]);
    }
  }

  lemma LastOfWalk(g: Adjacency, u: nat, v: nat)
    requires WellFormed(g) && u < |g| && Reaches(g, u, v)
    ensures v < |g|
  {
    var p :| IsWalk(g, p) && p[0] == u && p[|p| - 1] == v;
    if |p| > 1 {
      assert Edge(g, p[|p| - 2], p[|p| - 1]);
    }
  }

  lemma CyclesAreReachedAlike(g: Adjacency, names: seq<Id>, deps: Dependencies, i: nat)
    requires Represents(g, names, deps) && i < |g|
    ensures ReachesCycle(g, i) <==> LeadsToCycle(deps, names[i])
  {
    if w: nat :| Reaches(g, i, w) && OnCycle(g, w) {
      LastOfWalk(g, i, w);
      WalksAreChains(g, names, deps, i, w);
      CyclesAreCycles(g, names, deps, w);
    }
    if b :| LeadsTo(deps, names[i], b) && InCycle(deps, b) {
      assert names[i] in Elements(names);
      LastOfChain(deps, names[i], b);
      assert b in Elements(names);
      var w: nat :| w < |names| && names[w] == b;
      WalksAreChains(g, names, deps, i, w);
      CyclesAreCycles(g, names, deps, w);
    }
  }

  function Named(names: seq<Id>, order: seq<nat>): (named: seq<Id>)
    requires forall k :: 0 <= k < |order| ==> order[k] < |names|
  {
    seq(|order|, k requires 0 <= k < |order| => names[order[k]])
  }

  ghost predicate NodesInOrder(g: Adjacency, order: seq<nat>) {
    NoDuplicates(order) && Elements(order) == Nodes(g)
  }

  lemma NodesAreInRange(g: Adjacency, order: seq<nat>)
    requires Elements(order) == Nodes(g)
    ensures forall k :: 0 <= k < |order| ==> order[k] < |g|
  {
    forall k | 0 <= k < |order| ensures order[k] < |g| {
      assert order[k] in Elements(order);
    }
  }

  lemma NamedListsEverything(g: Adjacency, names: seq<Id>, deps: Dependencies, order: seq<nat>)
    requires Represents(g, names, deps) && NodesInOrder(g, order)
    requires forall k :: 0 <= k < |order| ==> order[k] < |names|
    ensures NoDuplicates(Named(names, order)) && Elements(Named(names, order)) == deps.Keys
  {
    var named := Named(names, order);
    forall a | a in deps.Keys ensures a in Elements(named) {
      assert a in Elements(names);
      var i: nat :| i < |names| && names[i] == a;
      assert IsNode(g, i) && i in Nodes(g);
      assert i in Elements(order);
      var k :| 0 <= k < |order| && order[k] == i;
      assert named[k] == a;
    }
    forall a | a in Elements(named) ensures a in deps.Keys {
      var k :| 0 <= k < |named| && named[k] == a;
      assert a in Elements(names);
    }
  }

  lemma NoCyclingNodes(g: Adjacency, names: seq<Id>, deps: Dependencies, a: Id)
    requires Represents(g, names, deps)
    requires forall u :: u in Nodes(g) ==> !ReachesCycle(g, u)
    ensures !InCycle(deps, a)
  {
    if InCycle(deps, a) {
      assert a in Elements(names);
      var i := IndexOf(names, a);
      CyclesAreCycles(g, names, deps, i);
      ReachesSelf(g, i);
      assert IsNode(g, i) && i in Nodes(g);
      CycleReached(g, i, i);
    }
  }

  lemma NoCyclingContracts(g: Adjacency, names: seq<Id>, deps: Dependencies)
    requires Represents(g, names, deps)
    requires forall u :: u in Nodes(g) ==> !ReachesCycle(g, u)
    ensures forall a :: !InCycle(deps, a)
  {
    forall a ensures !InCycle(deps, a) {
      NoCyclingNodes(g, names, deps, a);
    }
  }

  lemma AcyclicOrderIsTopological(g: Adjacency, names: seq<Id>, deps: Dependencies, order: seq<nat>)
    requires Represents(g, names, deps) && NodesInOrder(g, order) && PostOrder(g, order)
    requires forall k :: 0 <= k < |order| ==> order[k] < |names|
    requires forall u :: u in Nodes(g) ==> !ReachesCycle(g, u)
    ensures Topological(deps, Named(names, order)) && forall a :: !InCycle(deps, a)
  {
    NoCyclingContracts(g, names, deps);
    var named := Named(names, order);
    forall i, d | 0 <= i < |named| && DependsOn(deps, named[i], d) ensures d in named[..i] {
      assert d in Elements(names);
      var j := IndexOf(names, d);
      assert Edge(g, order[i], j);
      assert order[i] in Elements(order) && !ReachesCycle(g, order[i]);
      ReachesCycleUnfold(g, order[i]);
      assert j in order[..i];
      var k :| 0 <= k < i && order[k] == j;
      assert named[..i][k] == d;
    }
  }

  lemma CyclingNames(g: Adjacency, names: seq<Id>, deps: Dependencies, cycling: set<nat>, a: Id)
    requires Represents(g, names, deps)
    requires cycling == set u | u in Nodes(g) && ReachesCycle(g, u)
    ensures a in (set i | i in cycling && i < |names| :: names[i]) <==> a in deps && LeadsToCycle(deps, a)
  {
    if a in deps {
      assert a in Elements(names);
      var j := IndexOf(names, a);
      CyclesAreReachedAlike(g, names, deps, j);
      assert IsNode(g, j) && j in Nodes(g);
    } else {
      assert a !in Elements(names);
    }
  }

  lemma SomeCycle(g: Adjacency, names: seq<Id>, deps: Dependencies, cycling: set<nat>)
    requires Represents(g, names, deps)
    requires cycling == set u | u in Nodes(g) && ReachesCycle(g, u)
    requires cycling != {}
    ensures exists a :: InCycle(deps, a)
  {
    var u :| u in cycling;
    CyclesAreReachedAlike(g, names, deps, u);
  }

  lemma CyclingContracts(g: Adjacency, names: seq<Id>, deps: Dependencies, cycling: set<nat>)
    requires Represents(g, names, deps)
    requires cycling == set u | u in Nodes(g) && ReachesCycle(g, u)
    requires cycling != {}
    ensures (set i | i in cycling && i < |names| :: names[i]) == set a | a in deps && LeadsToCycle(deps, a)
    ensures exists a :: InCycle(deps, a)
  {
    SomeCycle(g, names, deps, cycling);
    var named := set i | i in cycling && i < |names| :: names[i];
    var wanted := set a | a in deps && LeadsToCycle(deps, a);
    forall a ensures a in named <==> a in wanted {
      CyclingNames(g, names, deps, cycling, a);
    }
  }

  /** The node numbering: one index per contract, in the order of the keys, and the way back. */
  method NumberContracts(keys: seq<Id>) returns (lookup: map<Id, nat>)
    requires NoDuplicates(keys)
    ensures lookup.Keys == Elements(keys)
    ensures forall i: nat :: i < |keys| ==> keys[i] in lookup && lookup[keys[i]] == i
    ensures forall a :: a in lookup ==> lookup[a] < |keys| && keys[lookup[a]] == a
  {
    lookup := map[];
    for i := 0 to |keys|
      invariant lookup.Keys == Elements(keys[..i])
      invariant forall k: nat :: k < i ==> keys[k] in lookup && lookup[keys[k]] == k
      invariant forall a :: a in lookup ==> lookup[a] < i && keys[lookup[a]] == a
    {
      assert Elements(keys[..i + 1]) == Elements(keys[..i]) + {keys[i]};
      lookup := lookup[keys[i] := i];
    }
    assert keys[..|keys|] == keys;
  }

  /** The adjacency list of one contract, unless one of its dependencies is deployed in a later epoch. */
  method Neighbours(deps: Dependencies, epochs: Epochs, lookup: map<Id, nat>, contract: Id)
      returns (r: Result<seq<nat>, Id>)
    requires contract in deps
    ensures r.Success? ==>
              && (forall b :: !Inverted(deps, epochs, contract, b))
              && (forall v :: v in r.value <==> exists b :: b in deps[contract] && b in lookup && lookup[b] == v)
    ensures r.Failure? ==> Inverted(deps, epochs, contract, r.error)
  {
    var neighbours: seq<nat> := [];
    var rest := deps[contract];
    while rest != {}
      invariant rest <= deps[contract]
      invariant forall v :: v in neighbours <==> exists b :: b in deps[contract] - rest && b in lookup && lookup[b] == v
      invariant forall b :: b in deps[contract] - rest ==> !Inverted(deps, epochs, contract, b)
    {
      var dependency :| dependency in rest;
      if EpochOf(epochs, contract) < EpochOf(epochs, dependency) {
        return Failure(dependency);
      }
      if dependency in lookup {
        neighbours := neighbours + [lookup[dependency]];
      }
      rest := rest - {dependency};
    }
    r := Success(neighbours);
  }

  method BuildGraph(deps: Dependencies, epochs: Epochs, lookup: map<Id, nat>, names: seq<Id>)
      returns (r: Result<Adjacency, OrderError>)
    requires NoDuplicates(names) && Elements(names) == deps.Keys == lookup.Keys
    requires forall i: nat :: i < |names| ==> names[i] in lookup && lookup[names[i]] == i
    requires forall a :: a in lookup ==> lookup[a] < |names| && names[lookup[a]] == a
    ensures r.Success? ==> Represents(r.value, names, deps) && forall a, b :: !Inverted(deps, epochs, a, b)
    ensures r.Failure? ==>
              && r.error.IncorrectContractHeight?
              && Inverted(deps, epochs, r.error.contract, r.error.dependency)
  {
    var g: Adjacency := [];
    for i := 0 to |names|
      invariant |g| == i
      invariant forall k: nat, j: nat :: k < i ==>
                  (Edge(g, k, j) <==> j < |names| && DependsOn(deps, names[k], names[j]))
      invariant forall k: nat, b :: k < i ==> !Inverted(deps, epochs, names[k], b)
    {
      assert names[i] in Elements(names);
      var neighbours := Neighbours(deps, epochs, lookup, names[i]);
      if neighbours.Failure? {
        return Failure(IncorrectContractHeight(names[i], neighbours.error));
      }
      forall j: nat ensures j in neighbours.value <==> j < |names| && DependsOn(deps, names[i], names[j]) {
        if j < |names| && DependsOn(deps, names[i], names[j]) {
          assert lookup[names[j]] == j;
        }
      }
      ghost var before := g;
      g := g + [neighbours.value];
      forall k: nat, j: nat | k < i ensures Edge(g, k, j) <==> Edge(before, k, j) {
      }
    }
    forall a, b ensures !Inverted(deps, epochs, a, b) {
      assert a in deps ==> a in Elements(names);
    }
    r := Success(g);
  }

  /** Why an order is refused: one dependency whose epoch goes back, or else all contracts that lead into a cycle. */
  ghost predicate Refused(deps: Dependencies, epochs: Epochs, error: OrderError) {
    match error
    case IncorrectContractHeight(contract, dependency) => Inverted(deps, epochs, contract, dependency)
    case CircularReference(contracts) =>
      && (forall a, b :: !Inverted(deps, epochs, a, b)) && (exists a :: InCycle(deps, a))
      && contracts == set a | a in deps && LeadsToCycle(deps, a)
  }

  /** The walk's order of nodes, in the names of the contracts. */
  lemma NodesAreKeys(g: Adjacency, keys: seq<Id>, deps: Dependencies, order: seq<nat>)
    requires Represents(g, keys, deps) && NodeByNode(g, order, |g|)
    requires forall i :: 0 <= i < |order| ==> order[i] < |keys|
    ensures KeyByKey(deps, keys, Named(keys, order))
  {
    var named := Named(keys, order);
    forall k, i, j | 0 <= k <= |keys| && 0 <= i < |named| && 0 <= j < |named|
                     && LedFromFirst(deps, keys, k, named[i]) && !LedFromFirst(deps, keys, k, named[j])
      ensures i < j
    {
      LedIsReached(g, keys, deps, k, order[i]);
      LedIsReached(g, keys, deps, k, order[j]);
    }
  }

  lemma LedIsReached(g: Adjacency, keys: seq<Id>, deps: Dependencies, k: nat, x: nat)
    requires Represents(g, keys, deps) && k <= |keys| && x < |keys|
    ensures ReachedByFirst(g, k, x) <==> LedFromFirst(deps, keys, k, keys[x])
  {
    if r: nat :| r < k && Reaches(g, r, x) {
      WalksAreChains(g, keys, deps, r, x);
    }
    if r :| 0 <= r < k && r < |keys| && LeadsTo(deps, keys[r], keys[x]) {
      WalksAreChains(g, keys, deps, r, x);
    }
  }

  lemma DependenciesBefore(deps: Dependencies, order: seq<Id>)
    requires Topological(deps, order)
    ensures forall i, d :: 0 <= i < |order| && order[i] in deps && d in deps[order[i]] && d in deps ==> d in order[..i]
  {
    forall i, d | 0 <= i < |order| && order[i] in deps && d in deps[order[i]] && d in deps ensures d in order[..i] {
      assert DependsOn(deps, order[i], d);
    }
  }

  lemma NoneIsLate(deps: Dependencies, epochs: Epochs)
    requires forall a, b :: !Inverted(deps, epochs, a, b)
    ensures forall a, b :: a in deps && b in deps[a] && b in epochs ==>
              epochs[b] == 0 || (a in epochs && epochs[b] <= epochs[a])
  {
    forall a, b | a in deps && b in deps[a] && b in epochs
      ensures epochs[b] == 0 || (a in epochs && epochs[b] <= epochs[a])
    {
      assert !Inverted(deps, epochs, a, b);
    }
  }

  /** The contracts, dependencies first and otherwise key by key; refused when an epoch goes back along a
      dependency, or when dependencies are circular. `keys` lists the map's keys in their order; the sets are
      visited in any order. */
  method OrderContracts(deps: Dependencies, epochs: Epochs, keys: seq<Id>) returns (r: Result<seq<Id>, OrderError>)
    requires NoDuplicates(keys) && Elements(keys) == deps.Keys
    ensures r.Success? <==> (forall a, b :: !Inverted(deps, epochs, a, b)) && (forall a :: !InCycle(deps, a))
    ensures r.Success? ==>
              forall a, b :: a in deps && b in deps[a] && b in epochs ==>
                epochs[b] == 0 || (a in epochs && epochs[b] <= epochs[a])
    ensures r.Success? ==> NoDuplicates(r.value) && Elements(r.value) == deps.Keys && Topological(deps, r.value)
    ensures r.Success? ==>
              forall i, d :: 0 <= i < |r.value| && r.value[i] in deps && d in deps[r.value[i]] && d in deps ==>
                d in r.value[..i]
    ensures r.Success? ==> KeyByKey(deps, keys, r.value)
    ensures r.Failure? ==> Refused(deps, epochs, r.error)
  {
    var lookup := NumberContracts(keys);
    var built := BuildGraph(deps, epochs, lookup, keys);
    if built.Failure? {
      return Failure(built.error);
    }
    var g := built.value;
    var walker := new GraphWalker();
    var order := walker.GetSortedDependencies(g);
    var cycling := walker.GetCyclingDependencies(g, order);
    NodesAreInRange(g, order);
    if cycling.Some? {
      CyclingContracts(g, keys, deps, cycling.value);
      r := Failure(CircularReference(set i | i in cycling.value && i < |keys| :: keys[i]));
    } else {
      AcyclicOrderIsTopological(g, keys, deps, order);
      NamedListsEverything(g, keys, deps, order);
      NodesAreKeys(g, keys, deps, order);
      NoneIsLate(deps, epochs);
      DependenciesBefore(deps, Named(keys, order));
      r := Success(Named(keys, order));
    }
  }
}
