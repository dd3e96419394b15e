/** `BaseSessionCache`: a session prepared for a plan is kept and handed out again, and no caller can tell. */
module SessionCache {
  import opened Common

  type Settings(==, !new)
  type Genesis(==, !new)
  type Transaction(==, !new)
  type Asts(==, !new)
  type Outcome(==, !new)
  /** Everything in a session but its settings and the number of times its chain tip was advanced. */
  type Core(==, !new)
  /** What a remote session is seeded from: the network at the moment it is built. */
  type World(==, !new)

  datatype Batch = Batch(epoch: Option<int>, transactions: seq<Transaction>)

  datatype Deployment = Deployment(genesis: Option<Genesis>, batches: seq<Batch>)

  datatype Session = Session(settings: Settings, advances: nat, core: Core)

  /** The session's operations, each a function of what it is given. A local session is built from its settings alone; a
      remote one also from the network. Executing a transaction that a simulated deployment does not admit panics: there
      is no value. */
  datatype Interpreter = Interpreter(
    remote: Settings -> bool,
    local: Settings -> Core,
    fetched: (Settings, World) -> Core,
    withGenesis: (Core, Genesis) -> Core,
    advanced: Core -> Core,
    atEpoch: (Core, int) -> Core,
    executed: (Core, int, Transaction, Option<Asts>) -> Option<(Core, seq<Outcome>)>,
    funded: (Core, Genesis) -> Core
  )

  const DEFAULT_EPOCH := 12

  function BatchEpoch(batch: Batch): int {
    if batch.epoch.Some? then batch.epoch.value else DEFAULT_EPOCH
  }

  /** An empty plan counts as one batch without an epoch, except for a remote session. */
  function PlanBatches(remote: bool, deployment: Deployment): seq<Batch> {
    if deployment.batches == [] && !remote then [Batch(None, [])] else deployment.batches
  }

  // ---------------------------------------------------------------- the uncached computation

  function NewSession(vm: Interpreter, settings: Settings, world: World): Session {
    Session(settings, 0, if vm.remote(settings) then vm.fetched(settings, world) else vm.local(settings))
  }

  function AddGenesis(vm: Interpreter, s: Session, genesis: Option<Genesis>): Session {
    if genesis.Some? then s.(core := vm.withGenesis(s.core, genesis.value)) else s
  }

  /** Advance the tip, then switch to the epoch. */
  function Enter(vm: Interpreter, s: Session, epoch: int): Session {
    s.(advances := s.advances + 1, core := vm.atEpoch(vm.advanced(s.core), epoch))
  }

  /** A session and the results so far; no value if a transaction panicked. */
  type Ran = Option<(Session, seq<Outcome>)>

  function Execute(vm: Interpreter, s: Session, epoch: int, txs: seq<Transaction>, asts: Option<Asts>): Ran {
    if txs == [] then Some((s, []))
    else
      match Execute(vm, s, epoch, txs[..|txs| - 1], asts)
      case None => None
      case Some((before, earlier)) =>
        match vm.executed(before.core, epoch, txs[|txs| - 1], asts)
        case None => None
        case Some((core, outcomes)) => Some((before.(core := core), earlier + outcomes))
  }

  /** Enter every batch's epoch and execute the batch, one batch after the other. */
  function RunBatches(vm: Interpreter, s: Session, batches: seq<Batch>, asts: Option<Asts>): Ran {
    if batches == [] then Some((s, []))
    else
      match RunBatches(vm, s, batches[..|batches| - 1], asts)
      case None => None
      case Some((before, earlier)) => RunBatch(vm, before, earlier, batches[|batches| - 1], asts)
  }

  function RunBatch(vm: Interpreter, before: Session, earlier: seq<Outcome>, batch: Batch, asts: Option<Asts>): Ran {
    match Execute(vm, Enter(vm, before, BatchEpoch(batch)), BatchEpoch(batch), batch.transactions, asts)
    case None => None
    case Some((after, outcomes)) => Some((after, earlier + outcomes))
  }

  function Fund(vm: Interpreter, s: Session, genesis: Option<Genesis>): Session {
    if genesis.Some? then s.(core := vm.funded(s.core, genesis.value)) else s
  }

  /** A session of one's own, with every batch entered and executed in turn, and no cache anywhere. */
  function RunFresh(vm: Interpreter, settings: Settings, deployment: Deployment, asts: Option<Asts>,
      world: World): Ran {
    var base := AddGenesis(vm, NewSession(vm, settings, world), deployment.genesis);
    match RunBatches(vm, base, PlanBatches(vm.remote(settings), deployment), asts)
    case None => None
    case Some((after, outcomes)) => Some((Fund(vm, after, deployment.genesis), outcomes))
  }

  lemma {:induction false} ExecuteKeepsSettings(vm: Interpreter, s: Session, epoch: int, txs: seq<Transaction>,
      asts: Option<Asts>)
    ensures var ran := Execute(vm, s, epoch, txs, asts);
            ran.Some? ==> ran.value.0.settings == s.settings && ran.value.0.advances == s.advances
  {
    if txs != [] {
      ExecuteKeepsSettings(vm, s, epoch, txs[..|txs| - 1], asts);
    }
  }

  lemma {:induction false} RunBatchesAdvances(vm: Interpreter, s: Session, batches: seq<Batch>, asts: Option<Asts>)
    ensures var ran := RunBatches(vm, s, batches, asts);
            ran.Some? ==> ran.value.0.settings == s.settings && ran.value.0.advances == s.advances + |batches|
  {
    if batches != [] {
      var last := batches[|batches| - 1];
      var before := RunBatches(vm, s, batches[..|batches| - 1], asts);
      RunBatchesAdvances(vm, s, batches[..|batches| - 1], asts);
      if before.Some? {
        ExecuteKeepsSettings(vm, Enter(vm, before.value.0, BatchEpoch(last)), BatchEpoch(last), last.transactions,
            asts);
      }
    }
  }

  /** A panic stays a panic, whatever batches follow. */
  lemma {:induction false} PanicStays(vm: Interpreter, s: Session, batches: seq<Batch>, asts: Option<Asts>, n: nat)
    requires n <= |batches| && RunBatches(vm, s, batches[..n], asts).None?
    ensures RunBatches(vm, s, batches, asts).None?
    decreases |batches|
  {
    if n == |batches| {
      assert batches[..n] == batches;
    } else {
      assert batches[..|batches| - 1][..n] == batches[..n];
      PanicStays(vm, s, batches[..|batches| - 1], asts, n);
    }
  }

  /** A local run that does not panic advances the tip once per batch, and once for an empty plan; a remote run once per
      batch. */
  lemma AdvancesOncePerBatch(vm: Interpreter, settings: Settings, deployment: Deployment, asts: Option<Asts>,
      world: World)
    ensures var ran := RunFresh(vm, settings, deployment, asts, world);
            ran.Some? ==>
              ran.value.0.advances ==
                if vm.remote(settings) || deployment.batches != [] then |deployment.batches| else 1
  {
    var base := AddGenesis(vm, NewSession(vm, settings, world), deployment.genesis);
    RunBatchesAdvances(vm, base, PlanBatches(vm.remote(settings), deployment), asts);
  }

  // ---------------------------------------------------------------- what a run does, read off its session

  /** What a session can be seen to have gone through. */
  datatype Entry =
    | LocalEntry(settings: Settings)
    | FetchedEntry(settings: Settings, world: World)
    | GenesisEntry(genesis: Genesis)
    | TipEntry
    | EpochEntry(epoch: int)
    | TransactionEntry(epoch: int, transaction: Transaction, asts: Option<Asts>)
    | FundingEntry(genesis: Genesis)

  /** A reader of sessions: a new one tells how it was built, and every operation adds its own entry. */
  ghost predicate Logs(vm: Interpreter, log: Core -> seq<Entry>) {
    && (forall settings :: log(vm.local(settings)) == [LocalEntry(settings)])
    && (forall settings, world :: log(vm.fetched(settings, world)) == [FetchedEntry(settings, world)])
    && (forall core, g :: log(vm.withGenesis(core, g)) == log(core) + [GenesisEntry(g)])
    && (forall core :: log(vm.advanced(core)) == log(core) + [TipEntry])
    && (forall core, epoch: int :: log(vm.atEpoch(core, epoch)) == log(core) + [EpochEntry(epoch)])
    && (forall core, epoch: int, tx, asts :: vm.executed(core, epoch, tx, asts).Some? ==>
          log(vm.executed(core, epoch, tx, asts).value.0) == log(core) + [TransactionEntry(epoch, tx, asts)])
    && (forall core, g :: log(vm.funded(core, g)) == log(core) + [FundingEntry(g)])
  }

  /** One transaction after the other, in an epoch. */
  function TransactionsLog(epoch: int, txs: seq<Transaction>, asts: Option<Asts>): seq<Entry> {
    seq(|txs|, k requires 0 <= k < |txs| => TransactionEntry(epoch, txs[k], asts))
  }

  /** The tip, then the epoch, which is 4.0 for a batch without one, then the transactions. */
  function BatchLog(batch: Batch, asts: Option<Asts>): seq<Entry> {
    var epoch := if batch.epoch.Some? then batch.epoch.value else 12;
    [TipEntry, EpochEntry(epoch)] + TransactionsLog(epoch, batch.transactions, asts)
  }

  function BatchesLog(batches: seq<Batch>, asts: Option<Asts>): seq<Entry> {
    if batches == [] then []
    else BatchesLog(batches[..|batches| - 1], asts) + BatchLog(batches[|batches| - 1], asts)
  }

  lemma {:induction false} ExecuteLogs(vm: Interpreter, log: Core -> seq<Entry>, s: Session, epoch: int,
      txs: seq<Transaction>, asts: Option<Asts>)
    requires Logs(vm, log)
    ensures var ran := Execute(vm, s, epoch, txs, asts);
            ran.Some? ==> log(ran.value.0.core) == log(s.core) + TransactionsLog(epoch, txs, asts)
  {
    if txs == [] {
      AppendNothing(log(s.core));
    } else {
      var init, last := txs[..|txs| - 1], txs[|txs| - 1];
      ExecuteLogs(vm, log, s, epoch, init, asts);
      assert TransactionsLog(epoch, txs, asts) ==
             TransactionsLog(epoch, init, asts) + [TransactionEntry(epoch, last, asts)];
      Assoc(log(s.core), TransactionsLog(epoch, init, asts), [TransactionEntry(epoch, last, asts)]);
    }
  }

  lemma BatchLogs(vm: Interpreter, log: Core -> seq<Entry>, before: Session, earlier: seq<Outcome>, batch: Batch,
      asts: Option<Asts>)
    requires Logs(vm, log)
    ensures var ran := RunBatch(vm, before, earlier, batch, asts);
            ran.Some? ==> log(ran.value.0.core) == log(before.core) + BatchLog(batch, asts)
  {
    var epoch := BatchEpoch(batch);
    ExecuteLogs(vm, log, Enter(vm, before, epoch), epoch, batch.transactions, asts);
    Assoc(log(before.core), [TipEntry], [EpochEntry(epoch)]);
    Assoc(log(before.core), [TipEntry, EpochEntry(epoch)], TransactionsLog(epoch, batch.transactions, asts));
  }

  lemma {:induction false} BatchesLogged(vm: Interpreter, log: Core -> seq<Entry>, s: Session, batches: seq<Batch>,
      asts: Option<Asts>)
    requires Logs(vm, log)
    ensures var ran := RunBatches(vm, s, batches, asts);
            ran.Some? ==> log(ran.value.0.core) == log(s.core) + BatchesLog(batches, asts)
  {
    if batches == [] {
      AppendNothing(log(s.core));
    } else {
      var init, last := batches[..|batches| - 1], batches[|batches| - 1];
      BatchesLogged(vm, log, s, init, asts);
      var before := RunBatches(vm, s, init, asts);
      if before.Some? {
        BatchLogs(vm, log, before.value.0, before.value.1, last, asts);
        Assoc(log(s.core), BatchesLog(init, asts), BatchLog(last, asts));
      }
    }
  }

  /** What a run that does not panic has gone through: how its session was built, the genesis, then batch by batch the
      tip, the epoch and the transactions in order, and the funding last. An empty plan still advances the tip and
      enters 4.0, unless the session is remote. */
  lemma RunGoesThrough(vm: Interpreter, log: Core -> seq<Entry>, settings: Settings, deployment: Deployment,
      asts: Option<Asts>, world: World)
    requires Logs(vm, log)
    ensures var ran := RunFresh(vm, settings, deployment, asts, world);
            ran.Some? ==>
              log(ran.value.0.core) ==
                [if vm.remote(settings) then FetchedEntry(settings, world) else LocalEntry(settings)]
                + (if deployment.genesis.Some? then [GenesisEntry(deployment.genesis.value)] else [])
                + (if deployment.batches == [] && !vm.remote(settings) then [TipEntry, EpochEntry(12)]
                   else BatchesLog(deployment.batches, asts))
                + (if deployment.genesis.Some? then [FundingEntry(deployment.genesis.value)] else [])
  {
    var base := AddGenesis(vm, NewSession(vm, settings, world), deployment.genesis);
    var batches := PlanBatches(vm.remote(settings), deployment);
    BatchesLogged(vm, log, base, batches, asts);
    EmptyPlanLog(asts);
    AppendNothing([if vm.remote(settings) then FetchedEntry(settings, world) else LocalEntry(settings)]);
    AppendNothing(log(base.core) + BatchesLog(batches, asts));
  }

  lemma EmptyPlanLog(asts: Option<Asts>)
    ensures BatchesLog([Batch(None, [])], asts) == [TipEntry, EpochEntry(12)]
  {
    assert [Batch(None, [])][..0] == [];
  }

  /** Every transaction gives one result, which its epoch and itself decide. */
  ghost predicate Tags(vm: Interpreter, tag: (int, Transaction) -> Outcome) {
    forall core, epoch: int, tx, asts :: vm.executed(core, epoch, tx, asts).Some? ==>
      vm.executed(core, epoch, tx, asts).value.1 == [tag(epoch, tx)]
  }

  /** The transactions of a plan with the epochs they run in. */
  function Schedule(batches: seq<Batch>): seq<(int, Transaction)> {
    if batches == [] then []
    else
      var last := batches[|batches| - 1];
      var epoch := if last.epoch.Some? then last.epoch.value else 12;
      Schedule(batches[..|batches| - 1]) + InEpoch(epoch, last.transactions)
  }

  function InEpoch(epoch: int, txs: seq<Transaction>): seq<(int, Transaction)> {
    seq(|txs|, k requires 0 <= k < |txs| => (epoch, txs[k]))
  }

  ghost predicate AreOf(outcomes: seq<Outcome>, schedule: seq<(int, Transaction)>,
      tag: (int, Transaction) -> Outcome)
  {
    && |outcomes| == |schedule|
    && forall k :: 0 <= k < |outcomes| ==> outcomes[k] == tag(schedule[k].0, schedule[k].1)
  }

  lemma {:induction false} ExecuteOutcomes(vm: Interpreter, tag: (int, Transaction) -> Outcome, s: Session, epoch: int,
      txs: seq<Transaction>, asts: Option<Asts>)
    requires Tags(vm, tag)
    ensures var ran := Execute(vm, s, epoch, txs, asts);
            ran.Some? ==> AreOf(ran.value.1, InEpoch(epoch, txs), tag)
  {
    if txs != [] {
      ExecuteOutcomes(vm, tag, s, epoch, txs[..|txs| - 1], asts);
    }
  }

  lemma {:induction false} BatchesOutcomes(vm: Interpreter, tag: (int, Transaction) -> Outcome, s: Session,
      batches: seq<Batch>, asts: Option<Asts>)
    requires Tags(vm, tag)
    ensures var ran := RunBatches(vm, s, batches, asts);
            ran.Some? ==> AreOf(ran.value.1, Schedule(batches), tag)
  {
    if batches != [] {
      var init, last := batches[..|batches| - 1], batches[|batches| - 1];
      BatchesOutcomes(vm, tag, s, init, asts);
      var before := RunBatches(vm, s, init, asts);
      if before.Some? {
        var epoch := BatchEpoch(last);
        ExecuteOutcomes(vm, tag, Enter(vm, before.value.0, epoch), epoch, last.transactions, asts);
      }
    }
  }

  /** The results of a run that does not panic are those of the plan's transactions, in order, and its session keeps
      its settings. */
  lemma RunResults(vm: Interpreter, tag: (int, Transaction) -> Outcome, settings: Settings, deployment: Deployment,
      asts: Option<Asts>, world: World)
    requires Tags(vm, tag)
    ensures var ran := RunFresh(vm, settings, deployment, asts, world);
            ran.Some? ==>
              && ran.value.0.settings == settings
              && |ran.value.1| == |Schedule(deployment.batches)|
              && forall k :: 0 <= k < |ran.value.1| ==>
                   ran.value.1[k] == tag(Schedule(deployment.batches)[k].0, Schedule(deployment.batches)[k].1)
  {
    var base := AddGenesis(vm, NewSession(vm, settings, world), deployment.genesis);
    var batches := PlanBatches(vm.remote(settings), deployment);
    BatchesOutcomes(vm, tag, base, batches, asts);
    RunBatchesAdvances(vm, base, batches, asts);
    if batches != deployment.batches {
      assert batches == [] + [Batch(None, [])];
      assert Schedule(batches) == [];
    }
  }

  /** Which transactions a session panics on, whatever it has gone through. */
  ghost predicate Refuses(vm: Interpreter, refused: (int, Transaction) -> bool) {
    forall core, epoch: int, tx, asts :: vm.executed(core, epoch, tx, asts).None? <==> refused(epoch, tx)
  }

  lemma {:induction false} ExecutePanics(vm: Interpreter, refused: (int, Transaction) -> bool, s: Session, epoch: int,
      txs: seq<Transaction>, asts: Option<Asts>)
    requires Refuses(vm, refused)
    ensures Execute(vm, s, epoch, txs, asts).None? <==> exists tx :: tx in txs && refused(epoch, tx)
  {
    if txs != [] {
      var init, last := txs[..|txs| - 1], txs[|txs| - 1];
      ExecutePanics(vm, refused, s, epoch, init, asts);
      InEitherPart(init, last, tx => refused(epoch, tx));
      assert txs == init + [last];
      if before :| before == Execute(vm, s, epoch, init, asts) && before.Some? {
        assert vm.executed(before.value.0.core, epoch, last, asts).None? <==> refused(epoch, last);
      }
    }
  }

  lemma InEitherPart<T>(init: seq<T>, last: T, has: T -> bool)
    ensures (exists x :: x in init + [last] && has(x)) <==> (exists x :: x in init && has(x)) || has(last)
  {
    if has(last) {
      assert last in init + [last];
    }
    if x :| x in init && has(x) {
      assert x in init + [last];
    }
  }

  predicate Panics(refused: (int, Transaction) -> bool, batch: Batch) {
    exists tx :: tx in batch.transactions && refused(if batch.epoch.Some? then batch.epoch.value else 12, tx)
  }

  lemma {:induction false} BatchesPanic(vm: Interpreter, refused: (int, Transaction) -> bool, s: Session,
      batches: seq<Batch>, asts: Option<Asts>)
    requires Refuses(vm, refused)
    ensures RunBatches(vm, s, batches, asts).None? <==> exists batch :: batch in batches && Panics(refused, batch)
  {
    if batches != [] {
      var init, last := batches[..|batches| - 1], batches[|batches| - 1];
      BatchesPanic(vm, refused, s, init, asts);
      assert batches == init + [last];
      InEitherPart(init, last, batch => Panics(refused, batch));
      var before := RunBatches(vm, s, init, asts);
      if before.Some? {
        var epoch := BatchEpoch(last);
        ExecutePanics(vm, refused, Enter(vm, before.value.0, epoch), epoch, last.transactions, asts);
      }
    }
  }

  /** A run panics exactly when some batch has a transaction that its epoch's session panics on. */
  lemma RunPanicsIff(vm: Interpreter, refused: (int, Transaction) -> bool, settings: Settings, deployment: Deployment,
      asts: Option<Asts>, world: World)
    requires Refuses(vm, refused)
    ensures RunFresh(vm, settings, deployment, asts, world).None? <==>
            exists batch :: batch in deployment.batches && Panics(refused, batch)
  {
    var base := AddGenesis(vm, NewSession(vm, settings, world), deployment.genesis);
    var batches := PlanBatches(vm.remote(settings), deployment);
    BatchesPanic(vm, refused, base, batches, asts);
  }

  // ---------------------------------------------------------------- preparing and resuming

  /** What `prepare_session_for_deployment_plan` reads. */
  datatype BaseSessionKey = BaseSessionKey(settings: Settings, genesis: Option<Genesis>, firstBatchEpoch: Option<int>)

  function Key(vm: Interpreter, settings: Settings, deployment: Deployment): BaseSessionKey {
    var batches := PlanBatches(vm.remote(settings), deployment);
    BaseSessionKey(settings, deployment.genesis, if batches == [] then None else Some(BatchEpoch(batches[0])))
  }

  /** Two local runs share a base session exactly if they agree on the settings, the genesis and the epoch of the first
      batch, where an empty plan counts as starting in 4.0. */
  lemma SharesBaseIff(vm: Interpreter, settings: Settings, a: Deployment, other: Settings, b: Deployment)
    requires !vm.remote(settings) && !vm.remote(other)
    ensures Key(vm, settings, a) == Key(vm, other, b) <==>
            && settings == other && a.genesis == b.genesis
            && (if a.batches == [] || a.batches[0].epoch.None? then 12 else a.batches[0].epoch.value)
               == (if b.batches == [] || b.batches[0].epoch.None? then 12 else b.batches[0].epoch.value)
  {
  }

  /** The base session as a function of the key alone, for a local session. */
  function BaseOf(vm: Interpreter, key: BaseSessionKey): Session {
    var s := AddGenesis(vm, Session(key.settings, 0, vm.local(key.settings)), key.genesis);
    if key.firstBatchEpoch.Some? then Enter(vm, s, key.firstBatchEpoch.value) else s
  }

  method Prepare(vm: Interpreter, settings: Settings, deployment: Deployment, world: World) returns (s: Session)
    ensures var base := AddGenesis(vm, NewSession(vm, settings, world), deployment.genesis);
            var batches := PlanBatches(vm.remote(settings), deployment);
            s == if batches == [] then base else Enter(vm, base, BatchEpoch(batches[0]))
    ensures !vm.remote(settings) ==> s == BaseOf(vm, Key(vm, settings, deployment))
  {
    s := NewSession(vm, settings, world);
    if deployment.genesis.Some? {
      s := s.(core := vm.withGenesis(s.core, deployment.genesis.value));
    }
    var batches := PlanBatches(vm.remote(s.settings), deployment);
    if batches != [] {
      s := s.(advances := s.advances + 1, core := vm.advanced(s.core));
      s := s.(core := vm.atEpoch(s.core, BatchEpoch(batches[0])));
    }
  }

  method ExecuteBatch(vm: Interpreter, entered: Session, epoch: int, txs: seq<Transaction>, asts: Option<Asts>)
      returns (ran: Ran)
    ensures ran == Execute(vm, entered, epoch, txs, asts)
  {
    var s, outcomes := entered, [];
    for k := 0 to |txs|
      invariant Execute(vm, entered, epoch, txs[..k], asts) == Some((s, outcomes))
    {
      assert txs[..k + 1][..k] == txs[..k];
      match vm.executed(s.core, epoch, txs[k], asts) {
        case None =>
          ExecutePanicStays(vm, entered, epoch, txs, asts, k + 1);
          return None;
        case Some((core, more)) =>
          s, outcomes := s.(core := core), outcomes + more;
      }
    }
    assert txs[..|txs|] == txs;
    ran := Some((s, outcomes));
  }

  lemma {:induction false} ExecutePanicStays(vm: Interpreter, s: Session, epoch: int, txs: seq<Transaction>,
      asts: Option<Asts>, n: nat)
    requires n <= |txs| && Execute(vm, s, epoch, txs[..n], asts).None?
    ensures Execute(vm, s, epoch, txs, asts).None?
    decreases |txs|
  {
    if n == |txs| {
      assert txs[..n] == txs;
    } else {
      assert txs[..|txs| - 1][..n] == txs[..n];
      ExecutePanicStays(vm, s, epoch, txs[..|txs| - 1], asts, n);
    }
  }

  /** Executes every batch, leaving out the first one's tip and epoch: `Prepare` has done these. */
  method Resume(vm: Interpreter, prepared: Session, deployment: Deployment, asts: Option<Asts>, ghost base: Session)
      returns (ran: Ran)
    requires var batches := PlanBatches(vm.remote(base.settings), deployment);
             prepared == if batches == [] then base else Enter(vm, base, BatchEpoch(batches[0]))
    ensures var expected := RunBatches(vm, base, PlanBatches(vm.remote(base.settings), deployment), asts);
            ran == if expected.None? then None
                   else Some((Fund(vm, expected.value.0, deployment.genesis), expected.value.1))
  {
    var batches := PlanBatches(vm.remote(prepared.settings), deployment);
    var s, outcomes := prepared, [];
    for i := 0 to |batches|
      invariant if i == 0 then s == prepared && outcomes == []
                else RunBatches(vm, base, batches[..i], asts) == Some((s, outcomes))
    {
      var batch := batches[i];
      var epoch := BatchEpoch(batch);
      assert batches[..i + 1][..i] == batches[..i];
      ghost var before := if i == 0 then base else s;
      if i > 0 {
        s := s.(advances := s.advances + 1, core := vm.advanced(s.core));
        s := s.(core := vm.atEpoch(s.core, epoch));
      }
      assert s == Enter(vm, before, epoch);
      assert RunBatches(vm, base, batches[..i], asts) == Some((before, outcomes));
      assert RunBatches(vm, base, batches[..i + 1], asts) == RunBatch(vm, before, outcomes, batch, asts);
      var batchRan := ExecuteBatch(vm, s, epoch, batch.transactions, asts);
      if batchRan.None? {
        PanicStays(vm, base, batches, asts, i + 1);
        return None;
      }
      s, outcomes := batchRan.value.0, outcomes + batchRan.value.1;
    }
    assert batches[..|batches|] == batches;
    if deployment.genesis.Some? {
      s := s.(core := vm.funded(s.core, deployment.genesis.value));
    }
    ran := Some((s, outcomes));
  }

  // ---------------------------------------------------------------- the cache

  class BaseSessionCache {
    var entry: Option<(BaseSessionKey, Session)>
    var hits: nat

    constructor ()
      ensures entry == None && hits == 0
    {
      entry, hits := None, 0;
    }

    /** A kept session is the base session of its key, and local. */
    ghost predicate Valid(vm: Interpreter)
      reads this
    {
      entry.Some? ==> entry.value.1 == BaseOf(vm, entry.value.0) && !vm.remote(entry.value.0.settings)
    }

    /** The key a kept session answers to. */
    function CachedKey(): Option<BaseSessionKey>
      reads this
    {
      if entry.Some? then Some(entry.value.0) else None
    }

    method PreparedSession(vm: Interpreter, settings: Settings, deployment: Deployment, world: World)
        returns (s: Session)
      requires Valid(vm)
      modifies this
      ensures Valid(vm)
      ensures var base := AddGenesis(vm, NewSession(vm, settings, world), deployment.genesis);
              var batches := PlanBatches(vm.remote(settings), deployment);
              s == if batches == [] then base else Enter(vm, base, BatchEpoch(batches[0]))
      ensures CachedKey() == if vm.remote(settings) then None else Some(Key(vm, settings, deployment))
      ensures hits == old(hits) +
                if !vm.remote(settings) && old(CachedKey()) == Some(Key(vm, settings, deployment)) then 1 else 0
    {
      if vm.remote(settings) {
        entry := None;
        s := Prepare(vm, settings, deployment, world);
        return;
      }
      var key := Key(vm, settings, deployment);
      if entry.Some? && entry.value.0 == key {
        hits := hits + 1;
        return entry.value.1;
      }
      s := Prepare(vm, settings, deployment, world);
      entry := Some((key, s));
    }

    /** Runs a plan from a kept base session, or from a new one: either way, what a run without cache gives. A run that
        panics leaves the base session of its plan. */
    method RunDeploymentPlan(vm: Interpreter, settings: Settings, deployment: Deployment, asts: Option<Asts>,
        world: World)
        returns (ran: Ran)
      requires Valid(vm)
      modifies this
      ensures Valid(vm)
      ensures ran == RunFresh(vm, settings, deployment, asts, world)
      ensures CachedKey() == if vm.remote(settings) then None else Some(Key(vm, settings, deployment))
      ensures hits == old(hits) +
                if !vm.remote(settings) && old(CachedKey()) == Some(Key(vm, settings, deployment)) then 1 else 0
    {
      var prepared := PreparedSession(vm, settings, deployment, world);
      ran := Resume(vm, prepared, deployment, asts,
          AddGenesis(vm, NewSession(vm, settings, world), deployment.genesis));
    }
  }

  // ---------------------------------------------------------------- sequences of runs

  datatype Call = Call(settings: Settings, deployment: Deployment, asts: Option<Asts>, world: World)

  function KeyOf(vm: Interpreter, call: Call): BaseSessionKey {
    Key(vm, call.settings, call.deployment)
  }

  /** What a run without a cache gives. */
  predicate IsFresh(vm: Interpreter, call: Call, ran: Ran) {
    ran == RunFresh(vm, call.settings, call.deployment, call.asts, call.world)
  }

  /** Consecutive local calls with one key: the ones the cache answers. */
  function Repeats(vm: Interpreter, calls: seq<Call>): nat {
    if |calls| < 2 then 0
    else
      var previous, last := calls[|calls| - 2], calls[|calls| - 1];
      Repeats(vm, calls[..|calls| - 1]) +
      if !vm.remote(previous.settings) && !vm.remote(last.settings) && KeyOf(vm, previous) == KeyOf(vm, last)
      then 1 else 0
  }

  lemma RepeatsOneMore(vm: Interpreter, calls: seq<Call>, i: nat)
    requires i < |calls|
    ensures Repeats(vm, calls[..i + 1]) == Repeats(vm, calls[..i]) +
              if i > 0 && !vm.remote(calls[i - 1].settings) && !vm.remote(calls[i].settings)
                 && KeyOf(vm, calls[i - 1]) == KeyOf(vm, calls[i])
              then 1 else 0
  {
    assert calls[..i + 1][..i] == calls[..i];
  }

  /** Any sequence of calls on one cache, some of which may panic midway, gives, call by call, what runs without a cache
      give. */
  method RunAll(vm: Interpreter, calls: seq<Call>) returns (results: seq<Ran>, hits: nat)
    ensures |results| == |calls|
    ensures forall i :: 0 <= i < |calls| ==> IsFresh(vm, calls[i], results[i])
    ensures hits == Repeats(vm, calls)
  {
    var cache := new BaseSessionCache();
    results := [];
    for i := 0 to |calls|
      invariant fresh(cache) && cache.Valid(vm) && |results| == i
      invariant forall k :: 0 <= k < i ==> IsFresh(vm, calls[k], results[k])
      invariant cache.CachedKey() ==
                if i == 0 || vm.remote(calls[i - 1].settings) then None else Some(KeyOf(vm, calls[i - 1]))
      invariant cache.hits == Repeats(vm, calls[..i])
    {
      RepeatsOneMore(vm, calls, i);
      var ran := cache.RunDeploymentPlan(vm, calls[i].settings, calls[i].deployment, calls[i].asts, calls[i].world);
      results := results + [ran];
    }
    assert calls[..|calls|] == calls;
    hits := cache.hits;
  }
}
