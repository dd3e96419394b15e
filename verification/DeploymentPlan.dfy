/** The default deployment plan: requirements and project contracts are ordered, put into epochs, and cut
    into batches. */
module DeploymentPlan {
  import opened Common
  import opened ContractOrder
  import opened Requirements

  datatype Kind = RequirementPublish | EmulatedContractPublish | ContractPublish

  datatype Transaction = Transaction(kind: Kind, id: Id)

  datatype Batch = Batch(id: nat, epoch: Epoch, transactions: seq<Transaction>)

  /** A transaction handed to `add_transaction_to_epoch`. */
  datatype Scheduled = Scheduled(tx: Transaction, epoch: Epoch)

  // ---------------------------------------------------------------- a schedule and its order by epoch

  /** What ends up in the list of one epoch: its transactions, in the order they were scheduled. */
  function Bucket(schedule: seq<Scheduled>, epoch: int): seq<Transaction> {
    if schedule == [] then []
    else
      var init, last := schedule[..|schedule| - 1], schedule[|schedule| - 1];
      Bucket(init, epoch) + (if last.epoch == epoch then [last.tx] else [])
  }

  /** The lists of all epochs below `end`, one after the other. */
  function ByEpoch(schedule: seq<Scheduled>, end: nat): seq<Transaction> {
    if end == 0 then [] else ByEpoch(schedule, end - 1) + Bucket(schedule, end - 1)
  }

  ghost predicate At(schedule: seq<Scheduled>, k: int, tx: Transaction, epoch: int) {
    0 <= k < |schedule| && schedule[k].tx == tx && schedule[k].epoch == epoch
  }

  ghost predicate AtBelow(schedule: seq<Scheduled>, k: int, tx: Transaction, end: int) {
    0 <= k < |schedule| && schedule[k].tx == tx && schedule[k].epoch < end
  }

  ghost predicate DistinctIds(schedule: seq<Scheduled>) {
    forall i, j :: 0 <= i < j < |schedule| ==> schedule[i].tx.id != schedule[j].tx.id
  }

  ghost predicate Before(txs: seq<Transaction>, a: Id, b: Id) {
    exists i, j :: 0 <= i < j < |txs| && txs[i].id == a && txs[j].id == b
  }

  ghost predicate DistinctTransactions(txs: seq<Transaction>) {
    forall i, j :: 0 <= i < j < |txs| ==> txs[i].id != txs[j].id
  }

  lemma {:induction false} BucketMembers(schedule: seq<Scheduled>, epoch: int, tx: Transaction)
    ensures tx in Bucket(schedule, epoch) <==> exists k :: At(schedule, k, tx, epoch)
  {
    if schedule != [] {
      var init, last := schedule[..|schedule| - 1], |schedule| - 1;
      BucketMembers(init, epoch, tx);
      if k :| At(init, k, tx, epoch) {
        assert At(schedule, k, tx, epoch);
      }
      if k :| At(schedule, k, tx, epoch) {
        assert k < last ==> At(init, k, tx, epoch);
      }
      if schedule[last].epoch == epoch && schedule[last].tx == tx {
        assert At(schedule, last, tx, epoch);
      }
    }
  }

  lemma {:induction false} ByEpochMembers(schedule: seq<Scheduled>, end: nat, tx: Transaction)
    ensures tx in ByEpoch(schedule, end) <==> exists k :: AtBelow(schedule, k, tx, end)
  {
    if end > 0 {
      var epoch := end - 1;
      ByEpochMembers(schedule, epoch, tx);
      BucketMembers(schedule, epoch, tx);
      var init, last := ByEpoch(schedule, epoch), Bucket(schedule, epoch);
      assert ByEpoch(schedule, end) == init + last;
      InEither(init, last, tx);
      assert forall k :: AtBelow(schedule, k, tx, end) <==>
          AtBelow(schedule, k, tx, epoch) || At(schedule, k, tx, epoch);
    }
  }

  lemma InEither<T>(s: seq<T>, t: seq<T>, x: T)
    ensures x in s + t <==> x in s || x in t
  {
  }

  lemma BeforeExtends(txs: seq<Transaction>, more: seq<Transaction>, a: Id, b: Id)
    ensures Before(txs, a, b) ==> Before(txs + more, a, b)
    ensures Before(more, a, b) ==> Before(txs + more, a, b)
  {
    if i, j :| 0 <= i < j < |txs| && txs[i].id == a && txs[j].id == b {
      assert (txs + more)[i].id == a && (txs + more)[j].id == b;
    }
    if i, j :| 0 <= i < j < |more| && more[i].id == a && more[j].id == b {
      assert (txs + more)[|txs| + i].id == a && (txs + more)[|txs| + j].id == b;
    }
  }

  lemma BeforeAcross(txs: seq<Transaction>, more: seq<Transaction>, a: Transaction, b: Transaction)
    requires a in txs && b in more
    ensures Before(txs + more, a.id, b.id)
  {
    var i :| 0 <= i < |txs| && txs[i] == a;
    var j :| 0 <= j < |more| && more[j] == b;
    assert (txs + more)[i] == a && (txs + more)[|txs| + j] == b;
  }

  lemma {:induction false} BucketKeepsOrder(schedule: seq<Scheduled>, i: int, j: int)
    requires 0 <= i < j < |schedule| && schedule[i].epoch == schedule[j].epoch
    ensures Before(Bucket(schedule, schedule[i].epoch), schedule[i].tx.id, schedule[j].tx.id)
  {
    var init, last := schedule[..|schedule| - 1], schedule[|schedule| - 1];
    var epoch := schedule[i].epoch;
    if j == |schedule| - 1 {
      assert At(init, i, schedule[i].tx, epoch);
      BucketMembers(init, epoch, schedule[i].tx);
      BeforeAcross(Bucket(init, epoch), [last.tx], schedule[i].tx, last.tx);
    } else {
      BucketKeepsOrder(init, i, j);
      BeforeExtends(Bucket(init, epoch), if last.epoch == epoch then [last.tx] else [],
                    schedule[i].tx.id, schedule[j].tx.id);
    }
  }

  /** Sorting by epoch is stable: an earlier epoch comes first, and within an epoch the schedule's order. */
  lemma {:induction false} EarlierComesFirst(schedule: seq<Scheduled>, end: nat, i: int, j: int)
    requires 0 <= i < |schedule| && 0 <= j < |schedule|
    requires schedule[i].epoch < schedule[j].epoch || (schedule[i].epoch == schedule[j].epoch && i < j)
    requires schedule[j].epoch < end
    ensures Before(ByEpoch(schedule, end), schedule[i].tx.id, schedule[j].tx.id)
  {
    var a, b := schedule[i], schedule[j];
    var epoch := end - 1;
    var init, last := ByEpoch(schedule, epoch), Bucket(schedule, epoch);
    assert ByEpoch(schedule, end) == init + last;
    BeforeExtends(init, last, a.tx.id, b.tx.id);
    if b.epoch < epoch {
      EarlierComesFirst(schedule, epoch, i, j);
    } else if a.epoch == b.epoch {
      BucketKeepsOrder(schedule, i, j);
    } else {
      assert AtBelow(schedule, i, a.tx, epoch) && At(schedule, j, b.tx, epoch);
      ByEpochMembers(schedule, epoch, a.tx);
      BucketMembers(schedule, epoch, b.tx);
      BeforeAcross(init, last, a.tx, b.tx);
    }
  }

  lemma {:induction false} BucketIsDistinct(schedule: seq<Scheduled>, epoch: int)
    requires DistinctIds(schedule)
    ensures DistinctTransactions(Bucket(schedule, epoch))
  {
    if schedule != [] {
      var init, last := schedule[..|schedule| - 1], schedule[|schedule| - 1];
      BucketIsDistinct(init, epoch);
      forall i | 0 <= i < |Bucket(init, epoch)| ensures Bucket(init, epoch)[i].id != last.tx.id {
        BucketMembers(init, epoch, Bucket(init, epoch)[i]);
      }
    }
  }

  lemma {:induction false} ByEpochIsDistinct(schedule: seq<Scheduled>, end: nat)
    requires DistinctIds(schedule)
    ensures DistinctTransactions(ByEpoch(schedule, end))
  {
    if end > 0 {
      var epoch := end - 1;
      ByEpochIsDistinct(schedule, epoch);
      BucketIsDistinct(schedule, epoch);
      forall a, b | a in ByEpoch(schedule, epoch) && b in Bucket(schedule, epoch) ensures a.id != b.id {
        ByEpochMembers(schedule, epoch, a);
        BucketMembers(schedule, epoch, b);
        var k :| AtBelow(schedule, k, a, epoch);
        var l :| At(schedule, l, b, epoch);
        assert k != l;
      }
    }
  }

  /** With each contract scheduled once, the order by epoch is decided by epoch and then by schedule position. */
  lemma BeforeIff(schedule: seq<Scheduled>, end: nat, i: int, j: int)
    requires DistinctIds(schedule)
    requires 0 <= i < |schedule| && 0 <= j < |schedule| && i != j
    requires schedule[i].epoch < end && schedule[j].epoch < end
    ensures Before(ByEpoch(schedule, end), schedule[i].tx.id, schedule[j].tx.id) <==>
            schedule[i].epoch < schedule[j].epoch || (schedule[i].epoch == schedule[j].epoch && i < j)
  {
    ByEpochIsDistinct(schedule, end);
    if schedule[i].epoch < schedule[j].epoch || (schedule[i].epoch == schedule[j].epoch && i < j) {
      EarlierComesFirst(schedule, end, i, j);
    } else {
      EarlierComesFirst(schedule, end, j, i);
    }
  }

  // ---------------------------------------------------------------- epochs and batches

  const EPOCH_COUNT := 13

  type Transactions = map<Epoch, seq<Transaction>>

  /** The epoch map holds exactly what has been scheduled. */
  ghost predicate Holds(transactions: Transactions, schedule: seq<Scheduled>) {
    forall e: Epoch :: Bucket(schedule, e) == if e in transactions then transactions[e] else []
  }

  method AddTransactionToEpoch(transactions: Transactions, tx: Transaction, epoch: Epoch,
      ghost schedule: seq<Scheduled>)
      returns (updated: Transactions)
    requires Holds(transactions, schedule)
    ensures Holds(updated, schedule + [Scheduled(tx, epoch)])
  {
    updated := transactions;
    if epoch !in updated {
      updated := updated[epoch := []];
    }
    updated := updated[epoch := updated[epoch] + [tx]];
    forall e: Epoch {
      BucketAppend(schedule, Scheduled(tx, epoch), e);
    }
  }

  lemma BucketAppend(schedule: seq<Scheduled>, next: Scheduled, epoch: int)
    ensures Bucket(schedule + [next], epoch) == Bucket(schedule, epoch) + if next.epoch == epoch then [next.tx] else []
  {
    assert (schedule + [next])[..|schedule + [next]| - 1] == schedule;
  }

  function Flatten(batches: seq<Batch>): seq<Transaction> {
    if batches == [] then [] else Flatten(batches[..|batches| - 1]) + batches[|batches| - 1].transactions
  }

  function OfEpoch(batches: seq<Batch>, epoch: int): seq<Transaction> {
    if batches == [] then []
    else
      var last := batches[|batches| - 1];
      OfEpoch(batches[..|batches| - 1], epoch) + (if last.epoch == epoch then last.transactions else [])
  }

  /** Ids count up from zero, no batch is empty or over the limit, epochs never go back, and a batch followed
      by another one of its epoch is full. */
  predicate WellBatched(batches: seq<Batch>, limit: nat) {
    && (forall i :: 0 <= i < |batches| ==> batches[i].id == i && 0 < |batches[i].transactions| <= limit)
    && (forall i, j :: 0 <= i < j < |batches| ==>
          && batches[i].epoch <= batches[j].epoch
          && (batches[i].epoch == batches[j].epoch ==> |batches[i].transactions| == limit))
  }

  /** `chunks(limit)` of one epoch's transactions, as batches numbered from `firstId`. */
  function Chunked(txs: seq<Transaction>, epoch: Epoch, firstId: nat, limit: nat): seq<Batch>
    requires 0 < limit
  {
    if |txs| == 0 then []
    else
      var size := if |txs| < limit then |txs| else limit;
      [Batch(firstId, epoch, txs[..size])] + Chunked(txs[size..], epoch, firstId + 1, limit)
  }

  /** The batches of all epochs below `end`. */
  function Planned(schedule: seq<Scheduled>, end: nat, limit: nat): seq<Batch>
    requires 0 < limit && end <= EPOCH_COUNT
  {
    if end == 0 then []
    else
      var earlier := Planned(schedule, end - 1, limit);
      earlier + Chunked(Bucket(schedule, end - 1), end - 1, |earlier|, limit)
  }

  lemma {:induction false} FlattenConcat(a: seq<Batch>, b: seq<Batch>)
    ensures Flatten(a + b) == Flatten(a) + Flatten(b)
  {
    if b == [] {
      assert a + b == a;
    } else {
      var init, last := b[..|b| - 1], b[|b| - 1];
      FlattenConcat(a, init);
      InitOfConcat(a, b);
      Assoc(Flatten(a), Flatten(init), last.transactions);
    }
  }

  lemma {:induction false} OfEpochConcat(a: seq<Batch>, b: seq<Batch>, epoch: int)
    ensures OfEpoch(a + b, epoch) == OfEpoch(a, epoch) + OfEpoch(b, epoch)
  {
    if b == [] {
      assert a + b == a;
    } else {
      var init, last := b[..|b| - 1], b[|b| - 1];
      OfEpochConcat(a, init, epoch);
      InitOfConcat(a, b);
      Assoc(OfEpoch(a, epoch), OfEpoch(init, epoch), if last.epoch == epoch then last.transactions else []);
    }
  }

  lemma OneBatchMore(batch: Batch, rest: seq<Batch>, e: int)
    ensures Flatten([batch] + rest) == batch.transactions + Flatten(rest)
    ensures OfEpoch([batch] + rest, e) == (if batch.epoch == e then batch.transactions else []) + OfEpoch(rest, e)
  {
    FlattenConcat([batch], rest);
    OfEpochConcat([batch], rest, e);
    assert [batch][..0] == [];
    assert Flatten([batch]) == [] + batch.transactions;
    assert OfEpoch([batch], e) == [] + if batch.epoch == e then batch.transactions else [];
  }

  /** Cutting an epoch's transactions into chunks and joining these gives the transactions back. */
  lemma {:induction false} ChunkedRoundTrip(txs: seq<Transaction>, epoch: Epoch, firstId: nat, limit: nat, e: int)
    requires 0 < limit
    ensures var chunks := Chunked(txs, epoch, firstId, limit);
            Flatten(chunks) == txs && OfEpoch(chunks, e) == if e == epoch then txs else []
  {
    if |txs| > 0 {
      var size := if |txs| < limit then |txs| else limit;
      ChunkedRoundTrip(txs[size..], epoch, firstId + 1, limit, e);
      OneBatchMore(Batch(firstId, epoch, txs[..size]), Chunked(txs[size..], epoch, firstId + 1, limit), e);
      assert txs == txs[..size] + txs[size..];
    }
  }

  /** Consecutive ids, one epoch, and only the last batch may be less than full. */
  predicate IsChunking(chunks: seq<Batch>, epoch: Epoch, firstId: nat, limit: nat) {
    forall i :: 0 <= i < |chunks| ==>
      && chunks[i].id == firstId + i && chunks[i].epoch == epoch
      && 0 < |chunks[i].transactions| <= limit
      && (i < |chunks| - 1 ==> |chunks[i].transactions| == limit)
  }

  lemma {:induction false} ChunkedShape(txs: seq<Transaction>, epoch: Epoch, firstId: nat, limit: nat)
    requires 0 < limit
    ensures IsChunking(Chunked(txs, epoch, firstId, limit), epoch, firstId, limit)
  {
    if |txs| > 0 {
      var size := if |txs| < limit then |txs| else limit;
      var chunks, rest := Chunked(txs, epoch, firstId, limit), Chunked(txs[size..], epoch, firstId + 1, limit);
      ChunkedShape(txs[size..], epoch, firstId + 1, limit);
      assert |txs| <= limit ==> rest == [];
      forall i | 0 < i < |chunks| ensures chunks[i] == rest[i - 1] {
      }
    }
  }

  /** The plan's batches, joined, are the schedule sorted by epoch; joined within one epoch, that epoch's list. */
  lemma {:induction false} PlannedRoundTrip(schedule: seq<Scheduled>, end: nat, limit: nat, e: int)
    requires 0 < limit && end <= EPOCH_COUNT
    ensures Flatten(Planned(schedule, end, limit)) == ByEpoch(schedule, end)
    ensures OfEpoch(Planned(schedule, end, limit), e) == if 0 <= e < end then Bucket(schedule, e) else []
  {
    if end > 0 {
      var earlier := Planned(schedule, end - 1, limit);
      PlannedRoundTrip(schedule, end - 1, limit, e);
      ChunksAfter(earlier, Bucket(schedule, end - 1), end - 1, limit, e);
    }
  }

  lemma ChunksAfter(earlier: seq<Batch>, txs: seq<Transaction>, epoch: Epoch, limit: nat, e: int)
    requires 0 < limit
    ensures var all := earlier + Chunked(txs, epoch, |earlier|, limit);
            && Flatten(all) == Flatten(earlier) + txs
            && OfEpoch(all, e) == OfEpoch(earlier, e) + if e == epoch then txs else []
  {
    var chunks := Chunked(txs, epoch, |earlier|, limit);
    ChunkedRoundTrip(txs, epoch, |earlier|, limit, e);
    FlattenConcat(earlier, chunks);
    OfEpochConcat(earlier, chunks, e);
  }

  predicate EpochsBelow(batches: seq<Batch>, end: int) {
    forall i :: 0 <= i < |batches| ==> batches[i].epoch < end
  }

  lemma ChunksKeepWellBatched(earlier: seq<Batch>, chunks: seq<Batch>, epoch: Epoch, limit: nat)
    requires WellBatched(earlier, limit) && EpochsBelow(earlier, epoch)
    requires IsChunking(chunks, epoch, |earlier|, limit)
    ensures WellBatched(earlier + chunks, limit) && EpochsBelow(earlier + chunks, epoch + 1)
  {
    var batches := earlier + chunks;
    forall i | 0 <= i < |batches| ensures batches[i] == if i < |earlier| then earlier[i] else chunks[i - |earlier|] {
    }
  }

  lemma {:induction false} PlannedIsWellBatched(schedule: seq<Scheduled>, end: nat, limit: nat)
    requires 0 < limit && end <= EPOCH_COUNT
    ensures WellBatched(Planned(schedule, end, limit), limit) && EpochsBelow(Planned(schedule, end, limit), end)
  {
    if end > 0 {
      var earlier := Planned(schedule, end - 1, limit);
      PlannedIsWellBatched(schedule, end - 1, limit);
      ChunkedShape(Bucket(schedule, end - 1), end - 1, |earlier|, limit);
      ChunksKeepWellBatched(earlier, Chunked(Bucket(schedule, end - 1), end - 1, |earlier|, limit), end - 1, limit);
    }
  }

  /** Cuts the epoch map into batches, epoch by epoch. */
  method BuildBatches(transactions: Transactions, limit: nat, ghost schedule: seq<Scheduled>)
      returns (batches: seq<Batch>)
    requires 0 < limit && Holds(transactions, schedule)
    ensures batches == Planned(schedule, EPOCH_COUNT, limit)
  {
    batches := [];
    for epoch := 0 to EPOCH_COUNT
      invariant batches == Planned(schedule, epoch, limit)
    {
      HeldInBucket(transactions, schedule, epoch);
      if epoch in transactions {
        batches := AddChunks(batches, transactions[epoch], epoch, limit);
      } else {
        NoChunks(batches, epoch, limit);
      }
    }
  }

  lemma NoChunks(batches: seq<Batch>, epoch: Epoch, limit: nat)
    requires 0 < limit
    ensures batches + Chunked([], epoch, |batches|, limit) == batches
  {
    AppendNothing(batches);
  }

  lemma HeldInBucket(transactions: Transactions, schedule: seq<Scheduled>, epoch: Epoch)
    requires Holds(transactions, schedule)
    ensures Bucket(schedule, epoch) == if epoch in transactions then transactions[epoch] else []
  {
  }

  method AddChunks(batches: seq<Batch>, txs: seq<Transaction>, epoch: Epoch, limit: nat) returns (more: seq<Batch>)
    requires 0 < limit
    ensures more == batches + Chunked(txs, epoch, |batches|, limit)
  {
    more := batches;
    var k := 0;
    while k < |txs|
      invariant 0 <= k <= |txs|
      invariant more + Chunked(txs[k..], epoch, |more|, limit) == batches + Chunked(txs, epoch, |batches|, limit)
    {
      var next := if |txs| - k < limit then |txs| else k + limit;
      var chunk := txs[k..next];
      if chunk != [] {
        var batch := Batch(|more|, epoch, chunk);
        assert txs[k..][..next - k] == chunk && txs[k..][next - k..] == txs[next..];
        assert Chunked(txs[k..], epoch, |more|, limit) == [batch] + Chunked(txs[next..], epoch, |more| + 1, limit);
        more := more + [batch];
      }
      k := next;
    }
  }

  // ---------------------------------------------------------------- the generator

  datatype Network = Simnet | Devnet | Testnet | Mainnet

  /** What the generator is given: the network, the code that can be downloaded, the contracts loaded up
      front, the listed requirements, the project's contracts, and all identifiers in their order. */
  datatype Config = Config(
    network: Network,
    remoteData: bool,
    noBatch: bool,
    book: map<Id, Contract>,
    retrievable: set<Id>,
    boot: set<Id>,
    sbtc: seq<Id>,
    sbtcIssued: set<Id>,
    requirements: Option<seq<Id>>,
    project: map<Id, Contract>,
    sorted: seq<Id>
  )
  {
    /** The keys of a map in their order. */
    function KeysOf(deps: Dependencies): seq<Id> {
      Keep(sorted, deps.Keys)
    }

    predicate SimnetRemoteData() {
      network.Simnet? && remoteData
    }

    predicate PublishesRequirements() {
      !network.Mainnet? && !SimnetRemoteData()
    }

    /** A contract whose dependencies the detector does not record: an sBTC contract on testnet. */
    predicate Hides(c: Id) {
      c in ToRegistry().alwaysRetrieved
    }

    function BootIds(): set<Id> {
      if SimnetRemoteData() then {} else boot + (if network.Simnet? then Elements(sbtc) else {})
    }

    function ToRegistry(): Registry {
      Registry(
        book,
        retrievable,
        if SimnetRemoteData() then {} else boot + Elements(sbtc),
        if network.Testnet? then sbtcIssued else {})
    }

    function Limit(): nat {
      if noBatch then 100_000 else 25
    }

    ghost predicate Valid() {
      && ToRegistry().Valid()
      && NoDuplicates(sbtc) && Elements(sbtc) <= sbtcIssued
      && NoDuplicates(sorted) && book.Keys + project.Keys <= Elements(sorted)
      && (requirements.Some? ==>
            forall c :: Reached(Followed(ToRegistry(), false), Elements(requirements.value), c) ==>
                !Dangling(ToRegistry(), c))
    }

    /** Whether the target of a project contract's reference is known among the loaded and project contracts. */
    predicate KnownToProject(data: set<Id>, r: Reference) {
      || (r.callee in project && r.item in project[r.callee].definitions)
      || (r.callee !in project && r.callee in data && r.callee in book && r.item in book[r.callee].definitions
          && book[r.callee].definitions[r.item].exported)
    }

    /** The dependencies of one project contract; a contract already loaded as a requirement has none. */
    function ProjectDependencies(data: set<Id>, c: Id): set<Id>
      requires c in project
    {
      if c in data then {}
      else
        project[c].direct +
        (set k, d | 0 <= k < |project[c].references| && KnownToProject(data, project[c].references[k])
           && d in PassedToProject(project[c].references[k]) :: d)
    }

    function PassedToProject(r: Reference): set<Id> {
      if r.callee in project then
        if r.item in project[r.callee].definitions
        then PassedContracts(r.arguments, project[r.callee].definitions[r.item].traitParameters) else {}
      else if r.callee in book && r.item in book[r.callee].definitions
      then PassedContracts(r.arguments, book[r.callee].definitions[r.item].traitParameters) else {}
    }

    /** `d` is passed where the parameter takes a trait. */
    ghost predicate PassesTo(r: Reference, parameters: seq<bool>, d: Id) {
      exists i :: 0 <= i < |r.arguments| && i < |parameters| && r.arguments[i] == Some(d) && parameters[i]
    }

    /** The dependencies of a project contract that is not loaded: those it names, and the contracts it passes for a
        trait to a function of the project, or to one that a loaded contract exports. */
    lemma ProjectDependenciesIff(data: set<Id>, c: Id, d: Id)
      requires c in project
      ensures d in ProjectDependencies(data, c) <==>
        c !in data && (
          d in project[c].direct ||
          exists k :: 0 <= k < |project[c].references| &&
            var r := project[c].references[k];
            || (r.callee in project && r.item in project[r.callee].definitions
                && PassesTo(r, project[r.callee].definitions[r.item].traitParameters, d))
            || (r.callee !in project && r.callee in data && r.callee in book && r.item in book[r.callee].definitions
                && book[r.callee].definitions[r.item].exported
                && PassesTo(r, book[r.callee].definitions[r.item].traitParameters, d)))
    {
      forall k | 0 <= k < |project[c].references|
        ensures KnownToProject(data, project[c].references[k]) && d in PassedToProject(project[c].references[k]) <==>
          var r := project[c].references[k];
          || (r.callee in project && r.item in project[r.callee].definitions
              && PassesTo(r, project[r.callee].definitions[r.item].traitParameters, d))
          || (r.callee !in project && r.callee in data && r.callee in book && r.item in book[r.callee].definitions
              && book[r.callee].definitions[r.item].exported
              && PassesTo(r, book[r.callee].definitions[r.item].traitParameters, d))
      {
      }
    }

    /** The dependencies all contracts are ordered by: boot contracts have none, requirements keep theirs. */
    function AllDependencies(work: Work): Dependencies {
      (map c | c in project :: ProjectDependencies(work.data, c))
      + (map c | c in BootIds() :: {})
      + work.deps
    }

    function RequirementEpochs(work: Work): Epochs {
      map c | c in work.retrieved && c in book :: book[c].epoch
    }

    function AllEpochs(work: Work): Epochs {
      RequirementEpochs(work) + (map c | c in project :: project[c].epoch)
    }

    /** Published as a requirement, as one of devnet's sBTC contracts, or as a project contract. */
    predicate AsRequirement(work: Work, c: Id) {
      && PublishesRequirements() && c in work.deps && c !in BootIds()
      && !(network.Devnet? && c in sbtc)
    }

    predicate AsSbtc(c: Id) {
      network.Devnet? && c in sbtc
    }

    predicate AsProject(work: Work, c: Id) {
      c in project && c !in work.data
    }

    function RequirementTx(c: Id): Scheduled {
      Scheduled(Transaction(if network.Simnet? then EmulatedContractPublish else RequirementPublish, c),
                if c in book then book[c].epoch else EPOCH_2_0)
    }

    function SbtcTx(c: Id): Scheduled {
      Scheduled(Transaction(RequirementPublish, c), EPOCH_3_0)
    }

    function ProjectTx(c: Id): Scheduled {
      Scheduled(Transaction(if network.Simnet? then EmulatedContractPublish else ContractPublish, c),
                if c in project then project[c].epoch else EPOCH_2_0)
    }
  }

  datatype Generated = Generated(batches: seq<Batch>, dependencies: Dependencies, work: Work, order: seq<Id>)

  datatype PlanError = Unretrievable(id: Id) | Unorderable(error: OrderError)

  function Scheduling(ids: seq<Id>, f: Id -> Scheduled): (s: seq<Scheduled>)
    ensures |s| == |ids| && forall k :: 0 <= k < |ids| ==> s[k] == f(ids[k])
  {
    seq(|ids|, k requires 0 <= k < |ids| => f(ids[k]))
  }

  /** Those of the ordered contracts that are to be published. */
  function Keep(order: seq<Id>, keep: set<Id>): seq<Id> {
    if order == [] then []
    else
      var last := order[|order| - 1];
      Keep(order[..|order| - 1], keep) + (if last in keep then [last] else [])
  }

  /** Every contract comes after those of its dependencies that are in the list at all. */
  ghost predicate DependenciesFirst(deps: Dependencies, ids: seq<Id>) {
    forall i, j :: 0 <= i < |ids| && 0 <= j < |ids| && DependsOn(deps, ids[i], ids[j]) ==> j < i
  }

  lemma TopologicalIsDependenciesFirst(deps: Dependencies, order: seq<Id>)
    requires NoDuplicates(order) && Topological(deps, order)
    ensures DependenciesFirst(deps, order)
  {
    forall i, j | 0 <= i < |order| && 0 <= j < |order| && DependsOn(deps, order[i], order[j]) ensures j < i {
      assert order[j] in order[..i];
    }
  }

  /** Leaving contracts out of a dependency order leaves a dependency order. */
  lemma {:induction false} KeepIsDependenciesFirst(deps: Dependencies, order: seq<Id>, keep: set<Id>)
    requires NoDuplicates(order) && DependenciesFirst(deps, order)
    ensures NoDuplicates(Keep(order, keep)) && DependenciesFirst(deps, Keep(order, keep))
    ensures Elements(Keep(order, keep)) == Elements(order) * keep
  {
    if order != [] {
      var init, last := order[..|order| - 1], order[|order| - 1];
      var kept := Keep(init, keep);
      KeepIsDependenciesFirst(deps, init, keep);
      assert Elements(order) == Elements(init) + {last};
      assert last !in Elements(init);
      if last in keep {
        var longer := kept + [last];
        assert Keep(order, keep) == longer;
        assert Elements(longer) == Elements(kept) + {last};
        forall i | 0 <= i < |kept| ensures kept[i] in Elements(init) && kept[i] != last {
          assert kept[i] in Elements(kept);
        }
        forall i, j | 0 <= i < |longer| && 0 <= j < |longer| && DependsOn(deps, longer[i], longer[j]) ensures j < i {
          var m := |order| - 1;
          assert DependsOn(deps, order[m], order[m]) ==> m < m;
        }
      } else {
        assert Keep(order, keep) == kept;
      }
    }
  }

  lemma KeysOfIsKeys(cfg: Config, deps: Dependencies)
    requires cfg.Valid() && deps.Keys <= Elements(cfg.sorted)
    ensures NoDuplicates(cfg.KeysOf(deps)) && Elements(cfg.KeysOf(deps)) == deps.Keys
  {
    KeepIsDependenciesFirst(map[], cfg.sorted, deps.Keys);
  }

  /** Leaving contracts out of an order by keys leaves an order by keys. */
  lemma {:induction false} KeepIsKeyByKey(deps: Dependencies, keys: seq<Id>, order: seq<Id>, keep: set<Id>)
    requires KeyByKey(deps, keys, order)
    ensures KeyByKey(deps, keys, Keep(order, keep))
    ensures forall i :: 0 <= i < |Keep(order, keep)| ==> Keep(order, keep)[i] in order
  {
    if order != [] {
      var init, last := order[..|order| - 1], order[|order| - 1];
      assert forall i :: 0 <= i < |init| ==> init[i] == order[i];
      KeepIsKeyByKey(deps, keys, init, keep);
      if last in keep {
        LastKeepsKeyByKey(deps, keys, order, Keep(init, keep));
      }
    }
  }

  lemma LastKeepsKeyByKey(deps: Dependencies, keys: seq<Id>, order: seq<Id>, kept: seq<Id>)
    requires order != [] && KeyByKey(deps, keys, order) && KeyByKey(deps, keys, kept)
    requires forall i :: 0 <= i < |kept| ==> kept[i] in order[..|order| - 1]
    ensures KeyByKey(deps, keys, kept + [order[|order| - 1]])
  {
    var last, longer := |order| - 1, kept + [order[|order| - 1]];
    forall k, j | 0 <= k <= |keys| && 0 <= j < |kept| && LedFromFirst(deps, keys, k, order[last])
      ensures LedFromFirst(deps, keys, k, kept[j])
    {
      assert kept[j] in order[..last];
      var m :| 0 <= m < last && order[..last][m] == kept[j];
      assert order[m] == kept[j];
    }
    forall k, i, j | 0 <= k <= |keys| && 0 <= i < |longer| && 0 <= j < |longer|
                     && LedFromFirst(deps, keys, k, longer[i]) && !LedFromFirst(deps, keys, k, longer[j])
      ensures i < j
    {
      assert i < |kept| ==> longer[i] == kept[i];
      assert j < |kept| ==> longer[j] == kept[j];
    }
  }

  /** What the generator adds to its epoch map, in order, and how it came to that order. */
  datatype Stages = Stages(requirements: seq<Id>, sbtc: seq<Id>, project: seq<Id>)
  {
    function Schedule(cfg: Config): seq<Scheduled> {
      Scheduling(requirements, cfg.RequirementTx) + Scheduling(sbtc, cfg.SbtcTx) + Scheduling(project, cfg.ProjectTx)
    }

    ghost predicate From(cfg: Config, work: Work) {
      && NoDuplicates(requirements) && NoDuplicates(sbtc) && NoDuplicates(project)
      && (forall c :: c in requirements <==> cfg.AsRequirement(work, c))
      && (forall c :: c in sbtc <==> cfg.AsSbtc(c))
      && (forall c :: c in project <==> cfg.AsProject(work, c))
      && DependenciesFirst(work.deps, requirements)
      && DependenciesFirst(cfg.AllDependencies(work), project)
    }
  }

  /** The discovered requirements, as the generator goes on with them. */
  ghost predicate Discovered(cfg: Config, work: Work) {
    && KeysAgree(cfg.ToRegistry(), work) && RecordedTruly(cfg.ToRegistry(), work)
    && (forall c, d :: c in work.deps && d in work.deps[c] ==> d in work.deps)
  }

  /** The contracts that discovery follows at least (`sure`) or at most. Away from testnet these are the required
      ones. */
  ghost predicate IsFollowed(cfg: Config, sure: bool, c: Id) {
    cfg.requirements.Some? && Reached(Followed(cfg.ToRegistry(), sure), Elements(cfg.requirements.value), c)
  }

  /** No downloaded sBTC contract other than the ones built in passes on a contract that it does not name. */
  ghost predicate IsDetermined(cfg: Config) {
    cfg.requirements.Some? ==> Determined(cfg.ToRegistry(), Elements(cfg.requirements.value))
  }

  /** What the requirements stage can come up with: nothing without requirements; otherwise what they lead to. */
  ghost predicate Discovery(cfg: Config, work: Work) {
    && Discovered(cfg, work)
    && (cfg.requirements.None? ==> work == Work([], cfg.ToRegistry().seeded, map[], {}))
    && (forall c :: IsFollowed(cfg, true, c) ==> c in work.deps)
    && (forall c :: c in work.deps ==> IsFollowed(cfg, false, c))
  }

  /** If no required contract is an sBTC contract on testnet, exactly the required contracts are discovered. */
  lemma DiscoveryIsRequired(cfg: Config, work: Work, c: Id)
    requires Discovery(cfg, work) && cfg.requirements.Some?
    requires Ordinary(cfg.ToRegistry(), Elements(cfg.requirements.value))
    ensures c in work.deps <==> Required(cfg.ToRegistry(), Elements(cfg.requirements.value), c)
    ensures c in work.deps && c in cfg.book ==> work.deps[c] == TrueDependencies(cfg.ToRegistry(), c)
  {
    var reg, listed := cfg.ToRegistry(), Elements(cfg.requirements.value);
    RequiredIsFollowed(reg, listed, c);
    OrdinaryIsDetermined(reg, listed);
    FollowedAlike(reg, listed, c);
    assert IsFollowed(cfg, true, c) <==> Reached(Followed(reg, true), listed, c);
    assert IsFollowed(cfg, false, c) <==> Reached(Followed(reg, false), listed, c);
  }

  /** All that the listed requirements lead to can be downloaded. */
  ghost predicate AllAvailable(cfg: Config) {
    forall c :: IsFollowed(cfg, false, c) ==> Available(cfg.ToRegistry(), c)
  }

  /** One of the two orderings is refused. */
  ghost predicate Unordered(cfg: Config, work: Work, error: OrderError) {
    || (cfg.PublishesRequirements() && Refused(work.deps, cfg.RequirementEpochs(work), error))
    || Refused(cfg.AllDependencies(work), cfg.AllEpochs(work), error)
  }

  /** No epoch goes back along a dependency, and there is no cycle. */
  ghost predicate Orderable(deps: Dependencies, epochs: Epochs) {
    Ordered(deps, epochs) && forall a :: !InCycle(deps, a)
  }

  /** What can be ordered is not refused, and what cannot is. */
  lemma RefusedIff(deps: Dependencies, epochs: Epochs)
    ensures Orderable(deps, epochs) <==> forall error :: !Refused(deps, epochs, error)
  {
    if a, b :| Inverted(deps, epochs, a, b) {
      assert Refused(deps, epochs, IncorrectContractHeight(a, b));
    } else if a :| InCycle(deps, a) {
      assert Refused(deps, epochs, CircularReference(set c | c in deps && LeadsToCycle(deps, c)));
    }
  }

  /** Why there is no plan. */
  ghost predicate Rightly(cfg: Config, error: PlanError) {
    match error
    case Unretrievable(id) =>
      IsFollowed(cfg, false, id) && !Available(cfg.ToRegistry(), id)
    case Unorderable(e) => exists work :: Discovery(cfg, work) && Unordered(cfg, work, e)
  }

  ghost predicate Ordered(deps: Dependencies, epochs: Epochs) {
    forall a, b :: !Inverted(deps, epochs, a, b)
  }

  /** A requirement that is published was downloaded, so its epoch and its publish specification are there. */
  lemma PublishedRequirementsWereRetrieved(cfg: Config, work: Work, c: Id)
    requires cfg.Valid() && Discovered(cfg, work) && cfg.AsRequirement(work, c)
    ensures c in work.retrieved && c in cfg.book && c in work.data
  {
    if c in cfg.ToRegistry().seeded {
      assert c in Elements(cfg.sbtc);
    }
  }

  /** Nothing is published twice. */
  lemma StagesAreDistinct(cfg: Config, work: Work, stages: Stages)
    requires cfg.Valid() && Discovered(cfg, work) && stages.From(cfg, work)
    ensures DistinctIds(stages.Schedule(cfg))
  {
    var r, b, p := stages.requirements, stages.sbtc, stages.project;
    var schedule := stages.Schedule(cfg);
    forall i | 0 <= i < |schedule|
      ensures schedule[i].tx.id ==
        if i < |r| then r[i] else if i < |r| + |b| then b[i - |r|] else p[i - |r| - |b|]
    {
    }
    forall c | c in r ensures c !in b && c in work.data {
      PublishedRequirementsWereRetrieved(cfg, work, c);
    }
    forall c | c in b ensures c in work.data {
      assert c in Elements(cfg.sbtc);
    }
    assert forall k :: 0 <= k < |r| ==> r[k] in r;
    assert forall k :: 0 <= k < |b| ==> b[k] in b;
    assert forall k :: 0 <= k < |p| ==> p[k] in p && p[k] !in work.data;
  }

  function PublishEpoch(cfg: Config, work: Work, c: Id): Epoch {
    if cfg.AsRequirement(work, c) then cfg.RequirementTx(c).epoch
    else if cfg.AsSbtc(c) then EPOCH_3_0
    else cfg.ProjectTx(c).epoch
  }

  /** For two scheduled transactions, what the plan makes of their positions and epochs. */
  lemma PublicationOrder(cfg: Config, work: Work, stages: Stages, i: int, j: int, a: Scheduled, b: Scheduled)
    requires cfg.Valid() && Discovered(cfg, work) && stages.From(cfg, work) && i != j
    requires IsAt(stages.Schedule(cfg), i, a) && IsAt(stages.Schedule(cfg), j, b)
    ensures Before(ByEpoch(stages.Schedule(cfg), EPOCH_COUNT), a.tx.id, b.tx.id) <==>
            a.epoch < b.epoch || (a.epoch == b.epoch && i < j)
  {
    StagesAreDistinct(cfg, work, stages);
    BeforeIff(stages.Schedule(cfg), EPOCH_COUNT, i, j);
  }

  predicate IsAt(schedule: seq<Scheduled>, i: int, next: Scheduled) {
    0 <= i < |schedule| && schedule[i] == next
  }

  /** What a published contract needs: a requirement its true dependencies, whatever has been recorded of them. */
  function NeedsOf(cfg: Config, work: Work, x: Id): set<Id> {
    if cfg.AsRequirement(work, x) then Needed(cfg.ToRegistry())(x)
    else if x in cfg.AllDependencies(work) then cfg.AllDependencies(work)[x]
    else {}
  }

  ghost predicate Earlier(order: seq<Id>, y: Id, x: Id) {
    exists i, j :: 0 <= i < j < |order| && order[i] == y && order[j] == x
  }

  /** When `y`, which `x` needs, comes first. It does, with these exceptions. On devnet the sBTC contracts are
      scheduled after the requirements, at epoch 3.0. On testnet an sBTC contract hides its dependencies: what it
      hides comes first only by its epoch, or by chance in the order of the requirements. And a requirement under a
      project contract's id keeps its own epoch. */
  ghost predicate ComesFirst(cfg: Config, work: Work, order: seq<Id>, published: seq<Transaction>, x: Id, y: Id) {
    var before, epochOfX, epochOfY := Before(published, y, x), PublishEpoch(cfg, work, x), PublishEpoch(cfg, work, y);
    && (cfg.AsRequirement(work, x) && cfg.AsRequirement(work, y) ==>
          if y in work.deps[x] then before
          else cfg.Hides(x) && (before <==> epochOfY < epochOfX || (epochOfY == epochOfX && Earlier(order, y, x))))
    && (cfg.AsRequirement(work, x) && cfg.AsProject(work, y) ==> cfg.Hides(x) && (before <==> epochOfY < epochOfX))
    && (cfg.AsRequirement(work, x) && cfg.AsSbtc(y) ==> (before <==> EPOCH_3_0 < epochOfX))
    && (cfg.AsProject(work, x) && cfg.AsProject(work, y) ==> before)
    && (cfg.AsProject(work, x) && cfg.AsSbtc(y) ==> (before <==> EPOCH_3_0 <= epochOfX))
    && (cfg.AsProject(work, x) && cfg.AsRequirement(work, y) ==>
          (before <==> epochOfY <= epochOfX) && (y !in cfg.project ==> before))
  }

  /** For every published contract and everything it needs, exactly when that comes first. */
  ghost predicate DependenciesPublishedFirst(cfg: Config, work: Work, order: seq<Id>, published: seq<Transaction>) {
    forall x, y :: y in NeedsOf(cfg, work, x) ==> ComesFirst(cfg, work, order, published, x, y)
  }

  lemma IndexOfMember(s: seq<Id>, c: Id) returns (k: nat)
    requires c in s
    ensures k < |s| && s[k] == c
  {
    k :| 0 <= k < |s| && s[k] == c;
  }

  lemma RequirementAt(cfg: Config, work: Work, stages: Stages, c: Id) returns (i: nat)
    requires stages.From(cfg, work) && cfg.AsRequirement(work, c)
    ensures i < |stages.requirements| && stages.requirements[i] == c
    ensures IsAt(stages.Schedule(cfg), i, cfg.RequirementTx(c))
  {
    i := IndexOfMember(stages.requirements, c);
  }

  lemma SbtcAt(cfg: Config, work: Work, stages: Stages, c: Id) returns (i: nat)
    requires stages.From(cfg, work) && cfg.AsSbtc(c)
    ensures |stages.requirements| <= i < |stages.requirements| + |stages.sbtc|
    ensures IsAt(stages.Schedule(cfg), i, cfg.SbtcTx(c))
  {
    var k := IndexOfMember(stages.sbtc, c);
    i := |stages.requirements| + k;
  }

  lemma ProjectAt(cfg: Config, work: Work, stages: Stages, c: Id) returns (k: nat, i: nat)
    requires stages.From(cfg, work) && cfg.AsProject(work, c)
    ensures k < |stages.project| && stages.project[k] == c && i == |stages.requirements| + |stages.sbtc| + k
    ensures IsAt(stages.Schedule(cfg), i, cfg.ProjectTx(c))
  {
    k := IndexOfMember(stages.project, c);
    i := |stages.requirements| + |stages.sbtc| + k;
  }

  lemma RequirementBeforeRequirement(cfg: Config, work: Work, stages: Stages, x: Id, y: Id)
    requires cfg.Valid() && Discovered(cfg, work) && stages.From(cfg, work)
    requires Ordered(work.deps, cfg.RequirementEpochs(work))
    requires x in work.deps && y in work.deps[x] && cfg.AsRequirement(work, x) && cfg.AsRequirement(work, y)
    ensures Before(ByEpoch(stages.Schedule(cfg), EPOCH_COUNT), y, x)
  {
    var i := RequirementAt(cfg, work, stages, x);
    var j := RequirementAt(cfg, work, stages, y);
    assert DependsOn(work.deps, stages.requirements[i], stages.requirements[j]);
    RequirementEpochsInOrder(cfg, work, x, y);
    PublicationOrder(cfg, work, stages, j, i, cfg.RequirementTx(y), cfg.RequirementTx(x));
  }

  lemma RequirementEpochsInOrder(cfg: Config, work: Work, x: Id, y: Id)
    requires cfg.Valid() && Discovered(cfg, work) && Ordered(work.deps, cfg.RequirementEpochs(work))
    requires x in work.deps && y in work.deps[x] && cfg.AsRequirement(work, x) && cfg.AsRequirement(work, y)
    ensures cfg.RequirementTx(y).epoch <= cfg.RequirementTx(x).epoch
  {
    PublishedRequirementsWereRetrieved(cfg, work, x);
    PublishedRequirementsWereRetrieved(cfg, work, y);
    assert !Inverted(work.deps, cfg.RequirementEpochs(work), x, y);
  }

  lemma ProjectBeforeProject(cfg: Config, work: Work, stages: Stages, x: Id, y: Id)
    requires cfg.Valid() && Discovered(cfg, work) && stages.From(cfg, work)
    requires Ordered(cfg.AllDependencies(work), cfg.AllEpochs(work))
    requires x in cfg.AllDependencies(work) && y in cfg.AllDependencies(work)[x]
    requires cfg.AsProject(work, x) && cfg.AsProject(work, y)
    ensures Before(ByEpoch(stages.Schedule(cfg), EPOCH_COUNT), y, x)
  {
    var k, i := ProjectAt(cfg, work, stages, x);
    var l, j := ProjectAt(cfg, work, stages, y);
    assert y in cfg.AllDependencies(work);
    ProjectListOrder(cfg, work, stages, k, l);
    ProjectEpochs(cfg, work, x, y);
    PublicationOrder(cfg, work, stages, j, i, cfg.ProjectTx(y), cfg.ProjectTx(x));
  }

  lemma ProjectListOrder(cfg: Config, work: Work, stages: Stages, i: nat, j: nat)
    requires stages.From(cfg, work) && i < |stages.project| && j < |stages.project|
    requires stages.project[i] in cfg.AllDependencies(work) && stages.project[j] in cfg.AllDependencies(work)
    requires stages.project[j] in cfg.AllDependencies(work)[stages.project[i]]
    ensures j < i
  {
    assert DependsOn(cfg.AllDependencies(work), stages.project[i], stages.project[j]);
  }

  lemma ProjectEpochs(cfg: Config, work: Work, x: Id, y: Id)
    requires Ordered(cfg.AllDependencies(work), cfg.AllEpochs(work))
    requires x in cfg.AllDependencies(work) && y in cfg.AllDependencies(work)[x]
    requires x in cfg.project && y in cfg.project
    ensures cfg.ProjectTx(y).epoch <= cfg.ProjectTx(x).epoch
  {
    assert !Inverted(cfg.AllDependencies(work), cfg.AllEpochs(work), x, y);
    ProjectEpochOf(cfg, work, x);
    ProjectEpochOf(cfg, work, y);
  }

  lemma ProjectIsOnlyProject(cfg: Config, work: Work, x: Id)
    requires cfg.Valid() && Discovered(cfg, work) && cfg.AsProject(work, x)
    ensures !cfg.AsRequirement(work, x) && !cfg.AsSbtc(x)
    ensures PublishEpoch(cfg, work, x) == cfg.ProjectTx(x).epoch
  {
    if cfg.AsRequirement(work, x) {
      PublishedRequirementsWereRetrieved(cfg, work, x);
    }
    assert cfg.AsSbtc(x) ==> x in Elements(cfg.sbtc);
  }

  lemma RequirementBeforeProject(cfg: Config, work: Work, stages: Stages, x: Id, y: Id)
    requires cfg.Valid() && Discovered(cfg, work) && stages.From(cfg, work)
    requires Ordered(cfg.AllDependencies(work), cfg.AllEpochs(work))
    requires x in cfg.AllDependencies(work) && y in cfg.AllDependencies(work)[x]
    requires cfg.AsProject(work, x) && cfg.AsRequirement(work, y)
    ensures Before(ByEpoch(stages.Schedule(cfg), EPOCH_COUNT), y, x) <==>
            PublishEpoch(cfg, work, y) <= PublishEpoch(cfg, work, x)
    ensures y !in cfg.project ==> Before(ByEpoch(stages.Schedule(cfg), EPOCH_COUNT), y, x)
  {
    RequirementThenProject(cfg, work, stages, x, y);
    ProjectIsOnlyProject(cfg, work, x);
    RequirementEpochIsChecked(cfg, work, x, y);
  }

  lemma RequirementThenProject(cfg: Config, work: Work, stages: Stages, x: Id, y: Id)
    requires cfg.Valid() && Discovered(cfg, work) && stages.From(cfg, work)
    requires cfg.AsProject(work, x) && cfg.AsRequirement(work, y)
    ensures Before(ByEpoch(stages.Schedule(cfg), EPOCH_COUNT), y, x) <==>
            cfg.RequirementTx(y).epoch <= cfg.ProjectTx(x).epoch
  {
    var _, i := ProjectAt(cfg, work, stages, x);
    var j := RequirementAt(cfg, work, stages, y);
    PublicationOrder(cfg, work, stages, j, i, cfg.RequirementTx(y), cfg.ProjectTx(x));
  }

  lemma RequirementEpochIsChecked(cfg: Config, work: Work, x: Id, y: Id)
    requires cfg.Valid() && Discovered(cfg, work) && cfg.AsProject(work, x) && cfg.AsRequirement(work, y)
    requires Ordered(cfg.AllDependencies(work), cfg.AllEpochs(work))
    requires x in cfg.AllDependencies(work) && y in cfg.AllDependencies(work)[x]
    ensures y !in cfg.project ==> cfg.RequirementTx(y).epoch <= cfg.ProjectTx(x).epoch
  {
    assert !Inverted(cfg.AllDependencies(work), cfg.AllEpochs(work), x, y);
    ProjectEpochOf(cfg, work, x);
    if y !in cfg.project {
      RequirementEpochOf(cfg, work, y);
    }
  }

  lemma ProjectEpochOf(cfg: Config, work: Work, x: Id)
    requires x in cfg.project
    ensures EpochOf(cfg.AllEpochs(work), x) == cfg.ProjectTx(x).epoch
  {
  }

  lemma RequirementEpochOf(cfg: Config, work: Work, y: Id)
    requires cfg.Valid() && Discovered(cfg, work) && cfg.AsRequirement(work, y) && y !in cfg.project
    ensures EpochOf(cfg.AllEpochs(work), y) == cfg.RequirementTx(y).epoch
  {
    PublishedRequirementsWereRetrieved(cfg, work, y);
  }

  lemma SbtcAfterRequirements(cfg: Config, work: Work, stages: Stages, x: Id, y: Id)
    requires cfg.Valid() && Discovered(cfg, work) && stages.From(cfg, work)
    requires cfg.AsRequirement(work, x) && cfg.AsSbtc(y)
    ensures Before(ByEpoch(stages.Schedule(cfg), EPOCH_COUNT), y, x) <==> EPOCH_3_0 < PublishEpoch(cfg, work, x)
  {
    var i := RequirementAt(cfg, work, stages, x);
    var j := SbtcAt(cfg, work, stages, y);
    PublicationOrder(cfg, work, stages, j, i, cfg.SbtcTx(y), cfg.RequirementTx(x));
  }

  lemma SbtcBeforeProject(cfg: Config, work: Work, stages: Stages, x: Id, y: Id)
    requires cfg.Valid() && Discovered(cfg, work) && stages.From(cfg, work)
    requires cfg.AsProject(work, x) && cfg.AsSbtc(y)
    ensures Before(ByEpoch(stages.Schedule(cfg), EPOCH_COUNT), y, x) <==> EPOCH_3_0 <= PublishEpoch(cfg, work, x)
  {
    var _, i := ProjectAt(cfg, work, stages, x);
    var j := SbtcAt(cfg, work, stages, y);
    ProjectIsOnlyProject(cfg, work, x);
    PublicationOrder(cfg, work, stages, j, i, cfg.SbtcTx(y), cfg.ProjectTx(x));
  }

  /** Two requirements of which nothing has been recorded come in the order of their epochs, then in that of the
      list. */
  lemma RequirementsByPosition(cfg: Config, work: Work, stages: Stages, x: Id, y: Id)
    requires cfg.Valid() && Discovered(cfg, work) && stages.From(cfg, work)
    requires cfg.AsRequirement(work, x) && cfg.AsRequirement(work, y)
    ensures Before(ByEpoch(stages.Schedule(cfg), EPOCH_COUNT), y, x) <==>
            || PublishEpoch(cfg, work, y) < PublishEpoch(cfg, work, x)
            || (PublishEpoch(cfg, work, y) == PublishEpoch(cfg, work, x) && Earlier(stages.requirements, y, x))
  {
    var i := RequirementAt(cfg, work, stages, x);
    var j := RequirementAt(cfg, work, stages, y);
    if i == j {
      StagesAreDistinct(cfg, work, stages);
      ByEpochIsDistinct(stages.Schedule(cfg), EPOCH_COUNT);
    } else {
      PublicationOrder(cfg, work, stages, j, i, cfg.RequirementTx(y), cfg.RequirementTx(x));
    }
    EarlierIff(stages.requirements, j, i);
  }

  lemma EarlierIff(order: seq<Id>, j: nat, i: nat)
    requires NoDuplicates(order) && i < |order| && j < |order|
    ensures Earlier(order, order[j], order[i]) <==> j < i
  {
  }

  lemma ProjectAfterRequirement(cfg: Config, work: Work, stages: Stages, x: Id, y: Id)
    requires cfg.Valid() && Discovered(cfg, work) && stages.From(cfg, work)
    requires cfg.AsRequirement(work, x) && cfg.AsProject(work, y)
    ensures Before(ByEpoch(stages.Schedule(cfg), EPOCH_COUNT), y, x) <==>
              PublishEpoch(cfg, work, y) < PublishEpoch(cfg, work, x)
  {
    var i := RequirementAt(cfg, work, stages, x);
    var _, j := ProjectAt(cfg, work, stages, y);
    ProjectIsOnlyProject(cfg, work, y);
    PublicationOrder(cfg, work, stages, j, i, cfg.ProjectTx(y), cfg.RequirementTx(x));
  }

  /** Only an sBTC contract on testnet can need what has not been recorded for it. */
  lemma UnrecordedIsHidden(cfg: Config, work: Work, x: Id, y: Id)
    requires Discovered(cfg, work) && cfg.AsRequirement(work, x)
    requires y in Needed(cfg.ToRegistry())(x) && y !in work.deps[x]
    ensures cfg.Hides(x) && work.deps[x] == {}
  {
    assert TrulyRecorded(cfg.ToRegistry(), x, work.deps[x]);
  }

  lemma RequirementNeeds(cfg: Config, work: Work, stages: Stages, x: Id, y: Id)
    requires cfg.Valid() && Discovered(cfg, work) && stages.From(cfg, work)
    requires cfg.PublishesRequirements() ==> Ordered(work.deps, cfg.RequirementEpochs(work))
    requires cfg.AsRequirement(work, x) && y in NeedsOf(cfg, work, x)
    ensures ComesFirst(cfg, work, stages.requirements, ByEpoch(stages.Schedule(cfg), EPOCH_COUNT), x, y)
  {
    PublishedRequirementsWereRetrieved(cfg, work, x);
    if y !in work.deps[x] {
      UnrecordedIsHidden(cfg, work, x, y);
    }
    if cfg.AsRequirement(work, y) {
      if y in work.deps[x] {
        RequirementBeforeRequirement(cfg, work, stages, x, y);
      } else {
        RequirementsByPosition(cfg, work, stages, x, y);
      }
    }
    if cfg.AsProject(work, y) {
      ProjectAfterRequirement(cfg, work, stages, x, y);
    }
    if cfg.AsSbtc(y) {
      SbtcAfterRequirements(cfg, work, stages, x, y);
    }
  }

  lemma ProjectNeeds(cfg: Config, work: Work, stages: Stages, x: Id, y: Id)
    requires cfg.Valid() && Discovered(cfg, work) && stages.From(cfg, work)
    requires Ordered(cfg.AllDependencies(work), cfg.AllEpochs(work))
    requires cfg.AsProject(work, x) && y in NeedsOf(cfg, work, x) && !cfg.AsRequirement(work, x)
    ensures ComesFirst(cfg, work, stages.requirements, ByEpoch(stages.Schedule(cfg), EPOCH_COUNT), x, y)
  {
    if cfg.AsProject(work, y) { ProjectBeforeProject(cfg, work, stages, x, y); }
    if cfg.AsSbtc(y) { SbtcBeforeProject(cfg, work, stages, x, y); }
    if cfg.AsRequirement(work, y) { RequirementBeforeProject(cfg, work, stages, x, y); }
  }

  lemma DependencyOrder(cfg: Config, work: Work, stages: Stages)
    requires cfg.Valid() && Discovered(cfg, work) && stages.From(cfg, work)
    requires cfg.PublishesRequirements() ==> Ordered(work.deps, cfg.RequirementEpochs(work))
    requires Ordered(cfg.AllDependencies(work), cfg.AllEpochs(work))
    ensures DependenciesPublishedFirst(cfg, work, stages.requirements, ByEpoch(stages.Schedule(cfg), EPOCH_COUNT))
  {
    forall x, y | y in NeedsOf(cfg, work, x)
      ensures ComesFirst(cfg, work, stages.requirements, ByEpoch(stages.Schedule(cfg), EPOCH_COUNT), x, y)
    {
      if cfg.AsRequirement(work, x) {
        PublishedRequirementsWereRetrieved(cfg, work, x);
        RequirementNeeds(cfg, work, stages, x, y);
      } else if cfg.AsProject(work, x) {
        ProjectNeeds(cfg, work, stages, x, y);
      }
    }
  }

  // ---------------------------------------------------------------- where a dependency does not come first

  /** For ids in their order: if the first keys of the recorded dependencies lead to one of two requirements and not
      to the other, that decides which comes first within an epoch, for whatever `x` needs and hides. */
  lemma HiddenByKeys(cfg: Config, g: Generated, x: Id, y: Id, k: nat)
    requires IsPlan(cfg, g) && cfg.AsRequirement(g.work, x) && cfg.AsRequirement(g.work, y)
    requires y in NeedsOf(cfg, g.work, x) && y !in g.work.deps[x]
    requires k <= |cfg.KeysOf(g.work.deps)|
    ensures var keys := cfg.KeysOf(g.work.deps);
            var byX, byY := LedFromFirst(g.work.deps, keys, k, x), LedFromFirst(g.work.deps, keys, k, y);
            var before := Before(Flatten(g.batches), y, x);
            && (byY && !byX ==> (before <==> PublishEpoch(cfg, g.work, y) <= PublishEpoch(cfg, g.work, x)))
            && (byX && !byY ==> (before <==> PublishEpoch(cfg, g.work, y) < PublishEpoch(cfg, g.work, x)))
  {
    assert ComesFirst(cfg, g.work, g.order, Flatten(g.batches), x, y);
    var i := IndexOfMember(g.order, x);
    var j := IndexOfMember(g.order, y);
    EarlierIff(g.order, j, i);
  }

  /** The same requirements, with one of them in front. */
  function InFront(order: seq<Id>, x: Id): seq<Id> {
    [x] + Keep(order, set c | c in order && c != x)
  }

  /** A contract of which no dependency is recorded can come first of all. */
  lemma InFrontIsDependenciesFirst(deps: Dependencies, order: seq<Id>, x: Id)
    requires NoDuplicates(order) && DependenciesFirst(deps, order) && x in order && (x in deps ==> deps[x] == {})
    ensures NoDuplicates(InFront(order, x)) && DependenciesFirst(deps, InFront(order, x))
    ensures forall c :: c in InFront(order, x) <==> c in order
  {
    var others := set c | c in order && c != x;
    var kept := Keep(order, others);
    KeepIsDependenciesFirst(deps, order, others);
    assert Elements(kept) == others;
    assert forall i :: 0 <= i < |kept| ==> kept[i] in Elements(kept);
    assert forall c :: c in kept <==> c in Elements(kept);
  }

  /** Of two requirements of which the second has no recorded dependencies, the first comes first in every order
      that the dependencies allow exactly when its epoch is the earlier one. */
  lemma HiddenIsFirstIff(cfg: Config, work: Work, stages: Stages, x: Id, y: Id)
    requires cfg.Valid() && Discovered(cfg, work) && stages.From(cfg, work)
    requires cfg.AsRequirement(work, x) && cfg.AsRequirement(work, y) && x != y && work.deps[x] == {}
    ensures (forall other: Stages :: other.From(cfg, work) ==>
              Before(ByEpoch(other.Schedule(cfg), EPOCH_COUNT), y, x)) <==>
            PublishEpoch(cfg, work, y) < PublishEpoch(cfg, work, x)
  {
    forall other: Stages | other.From(cfg, work) && PublishEpoch(cfg, work, y) < PublishEpoch(cfg, work, x)
      ensures Before(ByEpoch(other.Schedule(cfg), EPOCH_COUNT), y, x)
    {
      RequirementsByPosition(cfg, work, other, x, y);
    }
    var other := stages.(requirements := InFront(stages.requirements, x));
    InFrontIsDependenciesFirst(work.deps, stages.requirements, x);
    assert other.From(cfg, work);
    RequirementsByPosition(cfg, work, other, x, y);
    var j := IndexOfMember(other.requirements, y);
    EarlierIff(other.requirements, j, 0);
  }

  /** Away from devnet, and with no project contract under a requirement's id, every published contract comes after all
      published contracts that it needs, unless it is an sBTC contract on testnet. */
  lemma AllDependenciesFirst(cfg: Config, work: Work, order: seq<Id>, published: seq<Transaction>, x: Id, y: Id)
    requires Discovered(cfg, work) && DependenciesPublishedFirst(cfg, work, order, published)
    requires !cfg.network.Devnet? && cfg.project.Keys !! work.deps.Keys && !cfg.Hides(x)
    requires y in NeedsOf(cfg, work, x)
    requires cfg.AsRequirement(work, x) || cfg.AsProject(work, x)
    requires cfg.AsRequirement(work, y) || cfg.AsProject(work, y)
    ensures Before(published, y, x)
  {
    assert ComesFirst(cfg, work, order, published, x, y);
  }

  ghost predicate IsPublished(txs: seq<Transaction>, c: Id) {
    exists k :: 0 <= k < |txs| && txs[k].id == c
  }

  lemma PublishedContracts(cfg: Config, work: Work, stages: Stages, c: Id)
    requires stages.From(cfg, work)
    ensures IsPublished(ByEpoch(stages.Schedule(cfg), EPOCH_COUNT), c) <==>
            cfg.AsRequirement(work, c) || cfg.AsSbtc(c) || cfg.AsProject(work, c)
  {
    var s := stages.Schedule(cfg);
    PublishedIffScheduled(s, c);
    if i, next :| IsAt(s, i, next) && next.tx.id == c {
      assert c in stages.requirements || c in stages.sbtc || c in stages.project;
    }
    if cfg.AsRequirement(work, c) {
      var i := RequirementAt(cfg, work, stages, c);
    } else if cfg.AsSbtc(c) {
      var i := SbtcAt(cfg, work, stages, c);
    } else if cfg.AsProject(work, c) {
      var _, i := ProjectAt(cfg, work, stages, c);
    }
  }

  lemma PublishedIffScheduled(s: seq<Scheduled>, c: Id)
    ensures IsPublished(ByEpoch(s, EPOCH_COUNT), c) <==> exists i, next :: IsAt(s, i, next) && next.tx.id == c
  {
    var txs := ByEpoch(s, EPOCH_COUNT);
    if k :| 0 <= k < |txs| && txs[k].id == c {
      ByEpochMembers(s, EPOCH_COUNT, txs[k]);
      var i :| AtBelow(s, i, txs[k], EPOCH_COUNT);
      assert IsAt(s, i, s[i]);
    }
    if i, next :| IsAt(s, i, next) && next.tx.id == c {
      assert AtBelow(s, i, next.tx, EPOCH_COUNT);
      ByEpochMembers(s, EPOCH_COUNT, next.tx);
    }
  }

  lemma PublishedInItsEpoch(cfg: Config, work: Work, stages: Stages, epoch: Epoch, tx: Transaction)
    requires cfg.Valid() && Discovered(cfg, work) && stages.From(cfg, work)
    requires tx in Bucket(stages.Schedule(cfg), epoch)
    ensures PublishEpoch(cfg, work, tx.id) == epoch
  {
    var s := stages.Schedule(cfg);
    BucketMembers(s, epoch, tx);
    var i :| At(s, i, tx, epoch);
    if i >= |stages.requirements| + |stages.sbtc| {
      assert tx.id in stages.project;
      if cfg.AsRequirement(work, tx.id) { PublishedRequirementsWereRetrieved(cfg, work, tx.id); }
      assert cfg.AsSbtc(tx.id) ==> tx.id in Elements(cfg.sbtc);
    } else if i >= |stages.requirements| {
      assert tx.id in stages.sbtc;
    } else {
      assert tx.id in stages.requirements;
    }
  }

  // ---------------------------------------------------------------- what a plan holds, in the fields of its input

  /** A transaction is of the kind that its network and its contract ask for, and in its contract's epoch. */
  ghost predicate IsRight(cfg: Config, work: Work, epoch: Epoch, tx: Transaction) {
    var own := tx.id in cfg.project && tx.id !in work.data;
    && (if cfg.network.Simnet? then tx.kind.EmulatedContractPublish?
        else if own then tx.kind.ContractPublish?
        else tx.kind.RequirementPublish?)
    && (if own then epoch == cfg.project[tx.id].epoch
        else if cfg.network.Devnet? && tx.id in cfg.sbtc then epoch == 7
        else tx.id in cfg.book && epoch == cfg.book[tx.id].epoch)
  }

  /** The contracts to publish: the project's own, devnet's sBTC contracts, and except on mainnet and with remote data
      what was recorded as required, unless it is there from the start. */
  ghost predicate IsToPublish(cfg: Config, work: Work, c: Id) {
    || (c in cfg.project && c !in work.data)
    || (cfg.network.Devnet? && c in cfg.sbtc)
    || (c in work.deps && !cfg.network.Mainnet? && !(cfg.network.Simnet? && cfg.remoteData)
        && c !in cfg.boot && !((cfg.network.Simnet? || cfg.network.Devnet?) && c in cfg.sbtc))
  }

  /** The recorded dependencies of a contract that is required, none for one that is there from the start, and the
      project's. */
  ghost predicate AreDependencies(cfg: Config, work: Work, deps: Dependencies) {
    var boot := if cfg.network.Simnet? && cfg.remoteData then {}
                else cfg.boot + (if cfg.network.Simnet? then set c | c in cfg.sbtc else {});
    && deps.Keys == cfg.project.Keys + boot + work.deps.Keys
    && forall c :: c in deps ==>
         deps[c] == if c in work.deps then work.deps[c]
                    else if c in boot then {}
                    else cfg.ProjectDependencies(work.data, c)
  }

  ghost predicate IsIn(batches: seq<Batch>, i: int, tx: Transaction) {
    0 <= i < |batches| && tx in batches[i].transactions
  }

  ghost predicate HasTransactionOf(batches: seq<Batch>, c: Id) {
    exists i, tx :: IsIn(batches, i, tx) && tx.id == c
  }

  ghost predicate HoldsExactly(cfg: Config, g: Generated) {
    && (forall i, tx :: IsIn(g.batches, i, tx) ==> IsRight(cfg, g.work, g.batches[i].epoch, tx))
    && (forall c :: IsToPublish(cfg, g.work, c) <==> HasTransactionOf(g.batches, c))
    && (forall i :: 0 <= i < |g.batches| ==> |g.batches[i].transactions| <= if cfg.noBatch then 100_000 else 25)
    && AreDependencies(cfg, g.work, g.dependencies)
  }

  lemma {:induction false} FlattenMembers(batches: seq<Batch>, tx: Transaction)
    ensures tx in Flatten(batches) <==> exists i :: IsIn(batches, i, tx)
  {
    if batches != [] {
      var init, last := batches[..|batches| - 1], |batches| - 1;
      FlattenMembers(init, tx);
      InEither(Flatten(init), batches[last].transactions, tx);
      if i :| IsIn(init, i, tx) {
        assert IsIn(batches, i, tx);
      }
      if i :| IsIn(batches, i, tx) {
        assert i == last || IsIn(init, i, tx);
      }
      assert tx in batches[last].transactions ==> IsIn(batches, last, tx);
    }
  }

  lemma {:induction false} InOfItsEpoch(batches: seq<Batch>, i: int, tx: Transaction)
    requires IsIn(batches, i, tx)
    ensures tx in OfEpoch(batches, batches[i].epoch)
  {
    var n := |batches| - 1;
    if i < n {
      InOfItsEpoch(batches[..n], i, tx);
    }
  }

  lemma RequirementIsRight(cfg: Config, work: Work, c: Id)
    requires cfg.Valid() && Discovered(cfg, work) && cfg.AsRequirement(work, c)
    ensures IsRight(cfg, work, cfg.RequirementTx(c).epoch, cfg.RequirementTx(c).tx)
  {
    PublishedRequirementsWereRetrieved(cfg, work, c);
  }

  lemma SbtcIsRight(cfg: Config, work: Work, c: Id)
    requires cfg.Valid() && Discovered(cfg, work) && cfg.AsSbtc(c)
    ensures IsRight(cfg, work, cfg.SbtcTx(c).epoch, cfg.SbtcTx(c).tx)
  {
    assert c in Elements(cfg.sbtc);
  }

  lemma ProjectIsRight(cfg: Config, work: Work, c: Id)
    requires cfg.AsProject(work, c)
    ensures IsRight(cfg, work, cfg.ProjectTx(c).epoch, cfg.ProjectTx(c).tx)
  {
  }

  lemma EntryOf(cfg: Config, stages: Stages, i: nat)
    requires i < |stages.Schedule(cfg)|
    ensures var r, t := |stages.requirements|, |stages.requirements| + |stages.sbtc|;
            stages.Schedule(cfg)[i] ==
              if i < r then cfg.RequirementTx(stages.requirements[i])
              else if i < t then cfg.SbtcTx(stages.sbtc[i - r])
              else cfg.ProjectTx(stages.project[i - t])
  {
  }

  ghost predicate IsEntryRight(cfg: Config, work: Work, entry: Scheduled) {
    IsRight(cfg, work, entry.epoch, entry.tx)
  }

  ghost predicate StagesAreRight(cfg: Config, work: Work, stages: Stages) {
    && (forall c :: c in stages.requirements ==> IsEntryRight(cfg, work, cfg.RequirementTx(c)))
    && (forall c :: c in stages.sbtc ==> IsEntryRight(cfg, work, cfg.SbtcTx(c)))
    && (forall c :: c in stages.project ==> IsEntryRight(cfg, work, cfg.ProjectTx(c)))
  }

  lemma EachStageIsRight(cfg: Config, work: Work, stages: Stages)
    requires cfg.Valid() && Discovered(cfg, work) && stages.From(cfg, work)
    ensures StagesAreRight(cfg, work, stages)
  {
    forall c | c in stages.requirements ensures IsEntryRight(cfg, work, cfg.RequirementTx(c)) {
      RequirementIsRight(cfg, work, c);
    }
    forall c | c in stages.sbtc ensures IsEntryRight(cfg, work, cfg.SbtcTx(c)) {
      SbtcIsRight(cfg, work, c);
    }
    forall c | c in stages.project ensures IsEntryRight(cfg, work, cfg.ProjectTx(c)) {
      ProjectIsRight(cfg, work, c);
    }
  }

  lemma EntryIsRight(cfg: Config, work: Work, stages: Stages, i: nat)
    requires StagesAreRight(cfg, work, stages) && i < |stages.Schedule(cfg)|
    ensures IsEntryRight(cfg, work, stages.Schedule(cfg)[i])
  {
    EntryOf(cfg, stages, i);
    var r, t := |stages.requirements|, |stages.requirements| + |stages.sbtc|;
    if i < r {
      assert stages.requirements[i] in stages.requirements;
    } else if i < t {
      assert stages.sbtc[i - r] in stages.sbtc;
    } else {
      assert stages.project[i - t] in stages.project;
    }
  }

  lemma ScheduledIsRight(cfg: Config, work: Work, stages: Stages, epoch: Epoch, tx: Transaction)
    requires cfg.Valid() && Discovered(cfg, work) && stages.From(cfg, work)
    requires tx in Bucket(stages.Schedule(cfg), epoch)
    ensures IsRight(cfg, work, epoch, tx)
  {
    BucketMembers(stages.Schedule(cfg), epoch, tx);
    var i :| At(stages.Schedule(cfg), i, tx, epoch);
    EachStageIsRight(cfg, work, stages);
    EntryIsRight(cfg, work, stages, i);
  }

  lemma PlannedIsRight(cfg: Config, work: Work, stages: Stages, i: int, tx: Transaction)
    requires cfg.Valid() && Discovered(cfg, work) && stages.From(cfg, work)
    requires IsIn(Planned(stages.Schedule(cfg), EPOCH_COUNT, cfg.Limit()), i, tx)
    ensures IsRight(cfg, work, Planned(stages.Schedule(cfg), EPOCH_COUNT, cfg.Limit())[i].epoch, tx)
  {
    var batches := Planned(stages.Schedule(cfg), EPOCH_COUNT, cfg.Limit());
    InOfItsEpoch(batches, i, tx);
    PlannedRoundTrip(stages.Schedule(cfg), EPOCH_COUNT, cfg.Limit(), batches[i].epoch);
    ScheduledIsRight(cfg, work, stages, batches[i].epoch, tx);
  }

  lemma PlannedIsToPublish(cfg: Config, work: Work, stages: Stages, c: Id)
    requires stages.From(cfg, work)
    ensures IsToPublish(cfg, work, c) <==>
            HasTransactionOf(Planned(stages.Schedule(cfg), EPOCH_COUNT, cfg.Limit()), c)
  {
    PlannedRoundTrip(stages.Schedule(cfg), EPOCH_COUNT, cfg.Limit(), 0);
    PublishedContracts(cfg, work, stages, c);
    ToPublishIff(cfg, work, c);
    PublishedIsIn(Planned(stages.Schedule(cfg), EPOCH_COUNT, cfg.Limit()), c);
  }

  lemma DependenciesAre(cfg: Config, work: Work)
    ensures AreDependencies(cfg, work, cfg.AllDependencies(work))
  {
  }

  lemma PlannedHoldsExactly(cfg: Config, work: Work, stages: Stages)
    requires cfg.Valid() && Discovered(cfg, work) && stages.From(cfg, work)
    ensures HoldsExactly(cfg, Generated(Planned(stages.Schedule(cfg), EPOCH_COUNT, cfg.Limit()),
                                        cfg.AllDependencies(work), work, stages.requirements))
  {
    var batches := Planned(stages.Schedule(cfg), EPOCH_COUNT, cfg.Limit());
    PlannedIsWellBatched(stages.Schedule(cfg), EPOCH_COUNT, cfg.Limit());
    DependenciesAre(cfg, work);
    forall i, tx | IsIn(batches, i, tx) ensures IsRight(cfg, work, batches[i].epoch, tx) {
      PlannedIsRight(cfg, work, stages, i, tx);
    }
    forall c ensures IsToPublish(cfg, work, c) <==> HasTransactionOf(batches, c) {
      PlannedIsToPublish(cfg, work, stages, c);
    }
  }

  lemma PublishedIsIn(batches: seq<Batch>, c: Id)
    ensures IsPublished(Flatten(batches), c) <==> HasTransactionOf(batches, c)
  {
    var txs := Flatten(batches);
    if k :| 0 <= k < |txs| && txs[k].id == c {
      FlattenMembers(batches, txs[k]);
      var i :| IsIn(batches, i, txs[k]);
    }
    if i, tx :| IsIn(batches, i, tx) && tx.id == c {
      FlattenMembers(batches, tx);
      var k :| 0 <= k < |txs| && txs[k] == tx;
    }
  }

  lemma ToPublishIff(cfg: Config, work: Work, c: Id)
    ensures IsToPublish(cfg, work, c) <==> cfg.AsRequirement(work, c) || cfg.AsSbtc(c) || cfg.AsProject(work, c)
  {
  }

  /** What the generator promises of a plan. */
  ghost predicate IsPlan(cfg: Config, g: Generated) {
    && Discovered(cfg, g.work)
    && g.dependencies == cfg.AllDependencies(g.work)
    && WellBatched(g.batches, cfg.Limit())
    && DistinctTransactions(Flatten(g.batches))
    && (forall c :: IsPublished(Flatten(g.batches), c) <==>
          cfg.AsRequirement(g.work, c) || cfg.AsSbtc(c) || cfg.AsProject(g.work, c))
    && (forall epoch: Epoch, tx :: tx in OfEpoch(g.batches, epoch) ==> PublishEpoch(cfg, g.work, tx.id) == epoch)
    && DependenciesPublishedFirst(cfg, g.work, g.order, Flatten(g.batches))
    && NoDuplicates(g.order) && (forall c :: c in g.order <==> cfg.AsRequirement(g.work, c))
    && KeyByKey(g.work.deps, cfg.KeysOf(g.work.deps), g.order)
    && HoldsExactly(cfg, g)
  }

  lemma PlannedIsPlan(cfg: Config, work: Work, stages: Stages)
    requires cfg.Valid() && Discovered(cfg, work) && stages.From(cfg, work)
    requires cfg.PublishesRequirements() ==> Ordered(work.deps, cfg.RequirementEpochs(work))
    requires Ordered(cfg.AllDependencies(work), cfg.AllEpochs(work))
    requires KeyByKey(work.deps, cfg.KeysOf(work.deps), stages.requirements)
    ensures IsPlan(cfg, Generated(Planned(stages.Schedule(cfg), EPOCH_COUNT, cfg.Limit()),
                                  cfg.AllDependencies(work), work,
                                  stages.requirements))
  {
    var schedule := stages.Schedule(cfg);
    var batches := Planned(schedule, EPOCH_COUNT, cfg.Limit());
    PlannedIsWellBatched(schedule, EPOCH_COUNT, cfg.Limit());
    PlannedRoundTrip(schedule, EPOCH_COUNT, cfg.Limit(), 0);
    StagesAreDistinct(cfg, work, stages);
    ByEpochIsDistinct(schedule, EPOCH_COUNT);
    DependencyOrder(cfg, work, stages);
    PlannedHoldsExactly(cfg, work, stages);
    forall c {
      PublishedContracts(cfg, work, stages, c);
    }
    forall epoch: Epoch, tx | tx in OfEpoch(batches, epoch) ensures PublishEpoch(cfg, work, tx.id) == epoch {
      PlannedRoundTrip(schedule, EPOCH_COUNT, cfg.Limit(), epoch);
      PublishedInItsEpoch(cfg, work, stages, epoch, tx);
    }
  }

  /** `add_transaction_to_epoch` on each contract in turn. */
  method ScheduleAll(transactions: Transactions, ids: seq<Id>, f: Id -> Scheduled, ghost schedule: seq<Scheduled>)
      returns (updated: Transactions)
    requires Holds(transactions, schedule)
    ensures Holds(updated, schedule + Scheduling(ids, f))
  {
    updated := transactions;
    assert schedule + Scheduling(ids[..0], f) == schedule;
    for k := 0 to |ids|
      invariant Holds(updated, schedule + Scheduling(ids[..k], f))
    {
      var next := f(ids[k]);
      updated := AddTransactionToEpoch(updated, next.tx, next.epoch, schedule + Scheduling(ids[..k], f));
      assert schedule + Scheduling(ids[..k + 1], f)
          == schedule + Scheduling(ids[..k], f) + [Scheduled(next.tx, next.epoch)];
    }
    assert ids[..|ids|] == ids;
  }

  lemma DiscoveryOf(cfg: Config, work: Work)
    requires cfg.Valid() && cfg.requirements.Some?
    requires Invariant(cfg.ToRegistry(), Elements(cfg.requirements.value), work) && work.queue == []
    ensures Discovery(cfg, work)
  {
    var reg, listed := cfg.ToRegistry(), Elements(cfg.requirements.value);
    forall c ensures (IsFollowed(cfg, true, c) ==> c in work.deps) && (c in work.deps ==> IsFollowed(cfg, false, c)) {
      RecordedIsFollowed(reg, listed, work, c);
    }
    forall c, d | c in work.deps && d in work.deps[c] ensures d in work.deps {
      assert Kept(work, d);
    }
  }

  /** The requirements and what they lead to, or a contract among these that cannot be downloaded. */
  method Discover(cfg: Config) returns (r: Result<Work, Id>)
    requires cfg.Valid() && cfg.requirements.Some?
    ensures r.Success? ==> Discovery(cfg, r.value)
    ensures r.Failure? ==> IsFollowed(cfg, false, r.error) && !Available(cfg.ToRegistry(), r.error)
    ensures IsDetermined(cfg) && r.Success? ==> AllAvailable(cfg)
  {
    r := DiscoverRequirements(cfg.ToRegistry(), cfg.requirements.value);
    if r.Success? {
      DiscoveryOf(cfg, r.value);
    }
  }

  /** Discovers the requirements, orders them, and adds those that are to be published to the epoch map. */
  method PlanRequirements(cfg: Config) returns (r: Result<(Work, seq<Id>), PlanError>)
    requires cfg.Valid()
    ensures r.Success? ==>
              var (work, ids) := r.value;
              && Discovery(cfg, work)
              && NoDuplicates(ids) && (forall c :: c in ids <==> cfg.AsRequirement(work, c))
              && DependenciesFirst(work.deps, ids) && KeyByKey(work.deps, cfg.KeysOf(work.deps), ids)
              && (cfg.PublishesRequirements() ==> Orderable(work.deps, cfg.RequirementEpochs(work)))
    ensures r.Failure? ==> Rightly(cfg, r.error)
    ensures AllAvailable(cfg) ==> !(r.Failure? && r.error.Unretrievable?)
    ensures IsDetermined(cfg) && !AllAvailable(cfg) ==> r.Failure? && r.error.Unretrievable?
  {
    if cfg.requirements.None? {
      return Success((Work([], cfg.ToRegistry().seeded, map[], {}), []));
    }
    var discovered := Discover(cfg);
    if discovered.Failure? {
      return Failure(Unretrievable(discovered.error));
    }
    var work := discovered.value;
    if !cfg.PublishesRequirements() {
      return Success((work, []));
    }
    KeysOfIsKeys(cfg, work.deps);
    var ordered := OrderContracts(work.deps, cfg.RequirementEpochs(work), cfg.KeysOf(work.deps));
    if ordered.Failure? {
      assert Unordered(cfg, work, ordered.error);
      return Failure(Unorderable(ordered.error));
    }
    var retained := set c | c in work.deps && cfg.AsRequirement(work, c);
    TopologicalIsDependenciesFirst(work.deps, ordered.value);
    KeepIsDependenciesFirst(work.deps, ordered.value, retained);
    KeepIsKeyByKey(work.deps, cfg.KeysOf(work.deps), ordered.value, retained);
    assert forall c :: c in Keep(ordered.value, retained) <==> c in Elements(Keep(ordered.value, retained));
    r := Success((work, Keep(ordered.value, retained)));
  }

  lemma AllKeysAreSorted(cfg: Config, work: Work)
    requires cfg.Valid() && Discovered(cfg, work)
    ensures cfg.AllDependencies(work).Keys <= Elements(cfg.sorted)
  {
    assert cfg.AllDependencies(work).Keys == cfg.project.Keys + cfg.BootIds() + work.deps.Keys;
    assert cfg.BootIds() <= cfg.ToRegistry().seeded;
  }

  /** Orders everything once more, and keeps the contracts that are not loaded: those of the project. */
  method OrderProject(cfg: Config, work: Work) returns (r: Result<seq<Id>, OrderError>)
    requires cfg.Valid() && Discovered(cfg, work)
    ensures r.Success? ==>
              && NoDuplicates(r.value) && (forall c :: c in r.value <==> cfg.AsProject(work, c))
              && DependenciesFirst(cfg.AllDependencies(work), r.value)
              && Orderable(cfg.AllDependencies(work), cfg.AllEpochs(work))
    ensures r.Failure? ==> Refused(cfg.AllDependencies(work), cfg.AllEpochs(work), r.error)
  {
    var deps := cfg.AllDependencies(work);
    AllKeysAreSorted(cfg, work);
    KeysOfIsKeys(cfg, deps);
    var ordered := OrderContracts(deps, cfg.AllEpochs(work), cfg.KeysOf(deps));
    if ordered.Failure? {
      return ordered;
    }
    var unloaded := deps.Keys - work.data;
    TopologicalIsDependenciesFirst(deps, ordered.value);
    KeepIsDependenciesFirst(deps, ordered.value, unloaded);
    r := Success(Keep(ordered.value, unloaded));
    assert forall c :: c in r.value <==> c in Elements(r.value);
    FreshContractsAreTheProjects(cfg, work);
  }

  /** Fills the epoch map stage by stage and cuts it into batches. */
  method Assemble(cfg: Config, stages: Stages) returns (batches: seq<Batch>)
    ensures batches == Planned(stages.Schedule(cfg), EPOCH_COUNT, cfg.Limit())
  {
    ghost var first := Scheduling(stages.requirements, cfg.RequirementTx);
    ghost var second := first + Scheduling(stages.sbtc, cfg.SbtcTx);
    var transactions := ScheduleAll(map[], stages.requirements, cfg.RequirementTx, []);
    assert [] + first == first;
    transactions := ScheduleAll(transactions, stages.sbtc, cfg.SbtcTx, first);
    transactions := ScheduleAll(transactions, stages.project, cfg.ProjectTx, second);
    batches := BuildBatches(transactions, cfg.Limit(), stages.Schedule(cfg));
  }

  /** The deployment plan: requirements, devnet's sBTC contracts and project contracts, in dependency order,
      by epoch, in batches. */
  method GenerateDefaultDeployment(cfg: Config) returns (r: Result<Generated, PlanError>)
    requires cfg.Valid()
    ensures r.Success? ==> IsPlan(cfg, r.value)
    ensures r.Success? ==> Discovery(cfg, r.value.work)
    ensures r.Success? ==>
              && Orderable(cfg.AllDependencies(r.value.work), cfg.AllEpochs(r.value.work))
              && (cfg.PublishesRequirements() ==> Orderable(r.value.work.deps, cfg.RequirementEpochs(r.value.work)))
    ensures r.Failure? ==> Rightly(cfg, r.error)
    ensures AllAvailable(cfg) ==> !(r.Failure? && r.error.Unretrievable?)
    ensures IsDetermined(cfg) && !AllAvailable(cfg) ==> r.Failure? && r.error.Unretrievable?
  {
    var planned := PlanRequirements(cfg);
    if planned.Failure? {
      return Failure(planned.error);
    }
    var (work, requirements) := planned.value;
    var ordered := OrderProject(cfg, work);
    if ordered.Failure? {
      assert Unordered(cfg, work, ordered.error);
      return Failure(Unorderable(ordered.error));
    }
    var stages := Stages(requirements, if cfg.network.Devnet? then cfg.sbtc else [], ordered.value);
    var batches := Assemble(cfg, stages);
    PlannedIsPlan(cfg, work, stages);
    r := Success(Generated(batches, cfg.AllDependencies(work), work, requirements));
  }

  /** Ordered contracts that are not loaded are project contracts: looking one up in the project never fails. */
  lemma FreshContractsAreTheProjects(cfg: Config, work: Work)
    requires cfg.Valid() && Discovered(cfg, work)
    ensures forall c :: c in cfg.AllDependencies(work).Keys - work.data <==> cfg.AsProject(work, c)
  {
    assert cfg.AllDependencies(work).Keys == cfg.project.Keys + cfg.BootIds() + work.deps.Keys;
    assert cfg.BootIds() <= cfg.ToRegistry().seeded <= work.data && work.deps.Keys <= work.data;
  }
}
