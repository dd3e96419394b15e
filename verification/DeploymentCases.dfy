/** Plans in which something that a contract needs is published after it. */
module DeploymentCases {
  import opened Common
  import opened ContractOrder
  import opened Requirements
  import opened DeploymentPlan

  /** The plan made of some stages. */
  function PlanOf(cfg: Config, work: Work, stages: Stages): Generated {
    Generated(Planned(stages.Schedule(cfg), EPOCH_COUNT, cfg.Limit()), cfg.AllDependencies(work), work,
        stages.requirements)
  }

  lemma PlanFromStages(cfg: Config, work: Work, stages: Stages)
    requires cfg.Valid() && Discovery(cfg, work) && stages.From(cfg, work)
    requires cfg.PublishesRequirements() ==> Ordered(work.deps, cfg.RequirementEpochs(work))
    requires Ordered(cfg.AllDependencies(work), cfg.AllEpochs(work))
    requires KeyByKey(work.deps, cfg.KeysOf(work.deps), stages.requirements)
    ensures IsPlan(cfg, PlanOf(cfg, work, stages))
    ensures Flatten(PlanOf(cfg, work, stages).batches) == ByEpoch(stages.Schedule(cfg), EPOCH_COUNT)
  {
    PlannedIsPlan(cfg, work, stages);
    PlannedRoundTrip(stages.Schedule(cfg), EPOCH_COUNT, cfg.Limit(), 0);
  }

  /** Nothing outside a set that is closed is reached from inside it. */
  lemma ReachedStay(next: Id -> set<Id>, listed: set<Id>, ids: set<Id>, c: Id)
    requires listed <= ids && (forall x :: x in ids ==> next(x) <= ids) && Reached(next, listed, c)
    ensures c in ids
  {
    var p :| IsPath(next, p) && p[0] in listed && p[|p| - 1] == c;
    ReachedHave(next, listed, (x: Id) => x in ids, p);
  }

  lemma FollowedWithin(cfg: Config, ids: set<Id>)
    requires cfg.requirements.Some? && Elements(cfg.requirements.value) <= ids
    requires forall x :: x in ids ==> Followed(cfg.ToRegistry(), true)(x) <= ids
    ensures forall c :: IsFollowed(cfg, true, c) ==> c in ids
  {
    forall c | IsFollowed(cfg, true, c) ensures c in ids {
      ReachedStay(Followed(cfg.ToRegistry(), true), Elements(cfg.requirements.value), ids, c);
    }
  }

  lemma OneIsKeyByKey(deps: Dependencies, keys: seq<Id>, c: Id)
    ensures KeyByKey(deps, keys, [c])
  {
  }

  /** Without dependencies the keys are in their own order. */
  lemma TwoAreKeyByKey(deps: Dependencies, x: Id, y: Id)
    requires x != y && forall c :: c in deps ==> deps[c] == {}
    ensures KeyByKey(deps, [x, y], [x, y])
  {
    forall k | 0 <= k <= 2 && LedFromFirst(deps, [x, y], k, y) ensures LedFromFirst(deps, [x, y], k, x) {
      var r :| 0 <= r < k && r < 2 && LeadsTo(deps, [x, y][r], y);
      assert IsChain(deps, [x]);
      assert LeadsTo(deps, [x, y][0], x);
    }
  }

  /** Contracts without references dangle nowhere. */
  lemma PlainIsValid(cfg: Config)
    requires forall c :: c in cfg.book ==> cfg.book[c].references == []
    requires cfg.ToRegistry().retrievable <= cfg.book.Keys && cfg.ToRegistry().seeded <= cfg.book.Keys
    requires NoDuplicates(cfg.sbtc) && Elements(cfg.sbtc) <= cfg.sbtcIssued
    requires NoDuplicates(cfg.sorted) && cfg.book.Keys + cfg.project.Keys <= Elements(cfg.sorted)
    ensures cfg.Valid()
  {
  }

  lemma {:induction false} KeepAll(ids: seq<Id>, keep: set<Id>)
    requires forall i :: 0 <= i < |ids| ==> ids[i] in keep
    ensures Keep(ids, keep) == ids
  {
    if ids != [] {
      KeepAll(ids[..|ids| - 1], keep);
    }
  }

  function Plain(epoch: Epoch, direct: set<Id>): Contract {
    Contract(epoch, direct, [], map[])
  }

  // ---------------------------------------------------------------- devnet

  /** On devnet: one requirement, deployed in epoch 3.0, that depends on an sBTC contract. */
  function SbtcUser(x: Id, y: Id): Config {
    Config(Devnet, false, false, map[x := Plain(EPOCH_3_0, {y}), y := Plain(EPOCH_3_0, {})], {x}, {}, [y], {y},
           Some([x]), map[], [x, y])
  }

  /** Every plan for it publishes the requirement before the sBTC contract that the requirement depends on. */
  lemma DevnetPublishesSbtcLate(x: Id, y: Id, g: Generated)
    requires x != y && IsPlan(SbtcUser(x, y), g) && Discovery(SbtcUser(x, y), g.work)
    ensures y in NeedsOf(SbtcUser(x, y), g.work, x)
    ensures IsPublished(Flatten(g.batches), x) && IsPublished(Flatten(g.batches), y)
    ensures !Before(Flatten(g.batches), y, x)
  {
    var cfg := SbtcUser(x, y);
    ListedIsReached(Followed(cfg.ToRegistry(), true), Elements(cfg.requirements.value), x);
    assert IsFollowed(cfg, true, x);
    assert cfg.AsRequirement(g.work, x) && cfg.AsSbtc(y);
    assert ComesFirst(cfg, g.work, g.order, Flatten(g.batches), x, y);
  }

  function UserWork(x: Id, y: Id): Work {
    Work([], {x, y}, map[x := {y}, y := {}], {x})
  }

  lemma SbtcUserDiscovery(x: Id, y: Id)
    requires x != y
    ensures SbtcUser(x, y).Valid() && Discovery(SbtcUser(x, y), UserWork(x, y))
  {
    var cfg := SbtcUser(x, y);
    PlainIsValid(cfg);
    var next, listed := Followed(cfg.ToRegistry(), false), Elements(cfg.requirements.value);
    ListedIsReached(next, listed, x);
    NextIsReached(next, listed, x, y);
    FollowedWithin(cfg, {x, y});
    SbtcUserDiscovered(x, y);
  }

  lemma SbtcUserDiscovered(x: Id, y: Id)
    requires x != y
    ensures Discovered(SbtcUser(x, y), UserWork(x, y))
  {
  }

  /** And there is such a plan. */
  lemma SbtcUserHasPlan(x: Id, y: Id) returns (g: Generated)
    requires x != y
    ensures SbtcUser(x, y).Valid() && IsPlan(SbtcUser(x, y), g) && Discovery(SbtcUser(x, y), g.work)
  {
    var cfg, work, stages := SbtcUser(x, y), UserWork(x, y), Stages([x], [y], []);
    SbtcUserDiscovery(x, y);
    UserStages(x, y);
    OneIsKeyByKey(work.deps, cfg.KeysOf(work.deps), x);
    PlanFromStages(cfg, work, stages);
    g := PlanOf(cfg, work, stages);
  }

  lemma UserStages(x: Id, y: Id)
    requires x != y
    ensures Stages([x], [y], []).From(SbtcUser(x, y), UserWork(x, y))
    ensures Ordered(UserWork(x, y).deps, SbtcUser(x, y).RequirementEpochs(UserWork(x, y)))
    ensures Ordered(SbtcUser(x, y).AllDependencies(UserWork(x, y)), SbtcUser(x, y).AllEpochs(UserWork(x, y)))
  {
    var cfg, work := SbtcUser(x, y), UserWork(x, y);
    assert cfg.AllDependencies(work) == work.deps;
  }

  // ---------------------------------------------------------------- testnet

  /** On testnet: two sBTC contracts are listed, the first of which depends on the second. */
  function SbtcPair(x: Id, y: Id): Config {
    Config(Testnet, false, false, map[x := Plain(EPOCH_3_0, {y}), y := Plain(EPOCH_3_0, {})],
           {x, y}, {}, [x, y], {x, y},
           Some([x, y]), map[], [x, y])
  }

  /** It has a plan that publishes the first before the second. */
  lemma TestnetPublishesSbtcLate(x: Id, y: Id) returns (g: Generated)
    requires x != y
    ensures SbtcPair(x, y).Valid() && IsPlan(SbtcPair(x, y), g) && Discovery(SbtcPair(x, y), g.work)
    ensures y in NeedsOf(SbtcPair(x, y), g.work, x)
    ensures IsPublished(Flatten(g.batches), x) && IsPublished(Flatten(g.batches), y)
    ensures !Before(Flatten(g.batches), y, x)
  {
    var cfg, work, stages := SbtcPair(x, y), PairWork(x, y), Stages([x, y], [], []);
    SbtcPairDiscovery(x, y);
    PairStages(x, y);
    PairKeys(x, y);
    PlanFromStages(cfg, work, stages);
    g := PlanOf(cfg, work, stages);
    PairIsLate(x, y, g);
  }

  lemma PairKeys(x: Id, y: Id)
    requires x != y
    ensures KeyByKey(PairWork(x, y).deps, SbtcPair(x, y).KeysOf(PairWork(x, y).deps), [x, y])
  {
    KeepAll([x, y], PairWork(x, y).deps.Keys);
    TwoAreKeyByKey(PairWork(x, y).deps, x, y);
  }

  lemma PairIsLate(x: Id, y: Id, g: Generated)
    requires x != y && IsPlan(SbtcPair(x, y), g) && g.work == PairWork(x, y) && g.order == [x, y]
    ensures y in NeedsOf(SbtcPair(x, y), g.work, x)
    ensures IsPublished(Flatten(g.batches), x) && IsPublished(Flatten(g.batches), y)
    ensures !Before(Flatten(g.batches), y, x)
  {
    var cfg := SbtcPair(x, y);
    assert cfg.AsRequirement(g.work, x) && cfg.AsRequirement(g.work, y);
    assert ComesFirst(cfg, g.work, g.order, Flatten(g.batches), x, y);
    EarlierIff(g.order, 1, 0);
  }

  function PairWork(x: Id, y: Id): Work {
    Work([], {x, y}, map[x := {}, y := {}], {x, y})
  }

  lemma SbtcPairDiscovery(x: Id, y: Id)
    requires x != y
    ensures SbtcPair(x, y).Valid() && Discovery(SbtcPair(x, y), PairWork(x, y))
  {
    var cfg := SbtcPair(x, y);
    PlainIsValid(cfg);
    var next, listed := Followed(cfg.ToRegistry(), false), Elements(cfg.requirements.value);
    ListedIsReached(next, listed, x);
    ListedIsReached(next, listed, y);
    FollowedWithin(cfg, {x, y});
    SbtcPairDiscovered(x, y);
  }

  lemma SbtcPairDiscovered(x: Id, y: Id)
    requires x != y
    ensures Discovered(SbtcPair(x, y), PairWork(x, y))
  {
  }

  lemma PairStages(x: Id, y: Id)
    requires x != y
    ensures Stages([x, y], [], []).From(SbtcPair(x, y), PairWork(x, y))
    ensures Ordered(PairWork(x, y).deps, SbtcPair(x, y).RequirementEpochs(PairWork(x, y)))
    ensures Ordered(SbtcPair(x, y).AllDependencies(PairWork(x, y)), SbtcPair(x, y).AllEpochs(PairWork(x, y)))
  {
    var cfg, work := SbtcPair(x, y), PairWork(x, y);
    assert cfg.AllDependencies(work) == work.deps;
  }

  // ---------------------------------------------------------------- a project contract under a requirement's id

  /** A requirement of epoch 3.0 whose id a project contract of epoch 2.0 has too, and another project contract of epoch
      2.0 that depends on it. */
  function Collision(r: Id, p: Id): Config {
    Config(Testnet, false, false, map[r := Plain(EPOCH_3_0, {})], {r}, {}, [], {}, Some([r]),
           map[r := Plain(EPOCH_2_0, {}), p := Plain(EPOCH_2_0, {r})], [r, p])
  }

  /** It has a plan that publishes the requirement after the contract that depends on it. */
  lemma CollisionPublishesLate(r: Id, p: Id) returns (g: Generated)
    requires r != p
    ensures Collision(r, p).Valid() && IsPlan(Collision(r, p), g) && Discovery(Collision(r, p), g.work)
    ensures r in NeedsOf(Collision(r, p), g.work, p)
    ensures IsPublished(Flatten(g.batches), r) && IsPublished(Flatten(g.batches), p)
    ensures !Before(Flatten(g.batches), r, p)
  {
    var cfg, work, stages := Collision(r, p), CollisionWork(r), Stages([r], [], [p]);
    CollisionDiscovery(r, p);
    CollisionStages(r, p);
    OneIsKeyByKey(work.deps, cfg.KeysOf(work.deps), r);
    PlanFromStages(cfg, work, stages);
    g := PlanOf(cfg, work, stages);
    CollisionIsLate(r, p, g);
  }

  lemma CollisionIsLate(r: Id, p: Id, g: Generated)
    requires r != p && IsPlan(Collision(r, p), g) && g.work == CollisionWork(r)
    requires Collision(r, p).AllDependencies(CollisionWork(r)) == map[r := {}, p := {r}]
    ensures r in NeedsOf(Collision(r, p), g.work, p)
    ensures IsPublished(Flatten(g.batches), r) && IsPublished(Flatten(g.batches), p)
    ensures !Before(Flatten(g.batches), r, p)
  {
    var cfg := Collision(r, p);
    assert cfg.AsRequirement(g.work, r) && cfg.AsProject(g.work, p) && !cfg.AsRequirement(g.work, p);
    assert ComesFirst(cfg, g.work, g.order, Flatten(g.batches), p, r);
  }

  function CollisionWork(r: Id): Work {
    Work([], {r}, map[r := {}], {r})
  }

  lemma CollisionDiscovery(r: Id, p: Id)
    requires r != p
    ensures Collision(r, p).Valid() && Discovery(Collision(r, p), CollisionWork(r))
  {
    var cfg := Collision(r, p);
    PlainIsValid(cfg);
    ListedIsReached(Followed(cfg.ToRegistry(), false), Elements(cfg.requirements.value), r);
    FollowedWithin(cfg, {r});
    CollisionDiscovered(r, p);
  }

  lemma CollisionDiscovered(r: Id, p: Id)
    requires r != p
    ensures Discovered(Collision(r, p), CollisionWork(r))
  {
  }

  lemma CollisionStages(r: Id, p: Id)
    requires r != p
    ensures Stages([r], [], [p]).From(Collision(r, p), CollisionWork(r))
    ensures Ordered(CollisionWork(r).deps, Collision(r, p).RequirementEpochs(CollisionWork(r)))
    ensures Collision(r, p).AllDependencies(CollisionWork(r)) == map[r := {}, p := {r}]
    ensures Ordered(Collision(r, p).AllDependencies(CollisionWork(r)), Collision(r, p).AllEpochs(CollisionWork(r)))
  {
    var cfg, work := Collision(r, p), CollisionWork(r);
    assert cfg.ProjectDependencies(work.data, p) == {r};
    assert cfg.AllDependencies(work).Keys == {r, p};
    assert cfg.AllDependencies(work) == map[r := {}, p := {r}];
  }
}
