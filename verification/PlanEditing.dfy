/** Taking the transactions that are not contract publications out of a deployment, and merging such
    transactions back in. */
module PlanEditing {
  import opened Common

  type Payload(==, !new)

  datatype Transaction =
    | ContractPublish(payload: Payload)
    | EmulatedContractPublish(payload: Payload)
    | RequirementPublish(payload: Payload)
    | ContractCall(payload: Payload)
    | EmulatedContractCall(payload: Payload)
    | BtcTransfer(payload: Payload)
    | StxTransfer(payload: Payload)

  datatype Batch = Batch(id: nat, epoch: Option<Epoch>, transactions: seq<Transaction>)

  const RANKS := 14

  /** Epochs compare with "no epoch" first. */
  function Rank(batch: Batch): (rank: nat)
    ensures rank < RANKS
  {
    if batch.epoch.Some? then batch.epoch.value + 1 else 0
  }

  lemma RankIsEpoch(a: Batch, b: Batch)
    ensures Rank(a) == Rank(b) <==> a.epoch == b.epoch
    ensures Rank(a) <= Rank(b) <==> a.epoch.None? || (b.epoch.Some? && a.epoch.value <= b.epoch.value)
  {
  }

  /** The publications that the generator manages; publishing a requirement is not one of them. */
  predicate IsPublish(tx: Transaction) {
    tx.ContractPublish? || tx.EmulatedContractPublish?
  }

  function Publishes(txs: seq<Transaction>): seq<Transaction> {
    if txs == [] then []
    else
      var last := txs[|txs| - 1];
      Publishes(txs[..|txs| - 1]) + (if IsPublish(last) then [last] else [])
  }

  function Customs(txs: seq<Transaction>): seq<Transaction> {
    if txs == [] then []
    else
      var last := txs[|txs| - 1];
      Customs(txs[..|txs| - 1]) + (if IsPublish(last) then [] else [last])
  }

  /** The batches of one epoch, in order. */
  function Of(batches: seq<Batch>, rank: int): seq<Batch> {
    if batches == [] then []
    else
      var last := batches[|batches| - 1];
      Of(batches[..|batches| - 1], rank) + (if Rank(last) == rank then [last] else [])
  }

  function Transactions(batches: seq<Batch>): seq<Transaction> {
    if batches == [] then [] else Transactions(batches[..|batches| - 1]) + batches[|batches| - 1].transactions
  }

  /** All transactions of one epoch, in order. */
  function TransactionsOf(batches: seq<Batch>, rank: int): seq<Transaction> {
    Transactions(Of(batches, rank))
  }

  // ---------------------------------------------------------------- concatenation

  lemma {:induction false} PublishesConcat(a: seq<Transaction>, b: seq<Transaction>)
    ensures Publishes(a + b) == Publishes(a) + Publishes(b)
    ensures Customs(a + b) == Customs(a) + Customs(b)
  {
    if b == [] {
      assert a + b == a;
    } else {
      var init, last := b[..|b| - 1], b[|b| - 1];
      PublishesConcat(a, init);
      InitOfConcat(a, b);
      Assoc(Publishes(a), Publishes(init), if IsPublish(last) then [last] else []);
      Assoc(Customs(a), Customs(init), if IsPublish(last) then [] else [last]);
    }
  }

  lemma {:induction false} OfConcat(a: seq<Batch>, b: seq<Batch>, rank: int)
    ensures Of(a + b, rank) == Of(a, rank) + Of(b, rank)
  {
    if b == [] {
      assert a + b == a;
    } else {
      var init, last := b[..|b| - 1], b[|b| - 1];
      OfConcat(a, init, rank);
      InitOfConcat(a, b);
      Assoc(Of(a, rank), Of(init, rank), if Rank(last) == rank then [last] else []);
    }
  }

  lemma {:induction false} TransactionsConcat(a: seq<Batch>, b: seq<Batch>)
    ensures Transactions(a + b) == Transactions(a) + Transactions(b)
  {
    if b == [] {
      assert a + b == a;
    } else {
      var init, last := b[..|b| - 1], b[|b| - 1];
      TransactionsConcat(a, init);
      InitOfConcat(a, b);
      Assoc(Transactions(a), Transactions(init), last.transactions);
    }
  }

  lemma OfOne(batch: Batch, rank: int)
    ensures Of([batch], rank) == if Rank(batch) == rank then [batch] else []
    ensures TransactionsOf([batch], rank) == if Rank(batch) == rank then batch.transactions else []
  {
    assert [batch][..0] == [];
    assert Transactions([batch]) == Transactions([]) + batch.transactions == batch.transactions;
  }

  lemma TransactionsOfConcat(a: seq<Batch>, b: seq<Batch>, rank: int)
    ensures TransactionsOf(a + b, rank) == TransactionsOf(a, rank) + TransactionsOf(b, rank)
  {
    OfConcat(a, b, rank);
    TransactionsConcat(Of(a, rank), Of(b, rank));
  }

  lemma {:induction false} Partition(txs: seq<Transaction>)
    ensures multiset(txs) == multiset(Publishes(txs)) + multiset(Customs(txs))
  {
    if txs != [] {
      var init, last := txs[..|txs| - 1], txs[|txs| - 1];
      Partition(init);
      assert txs == init + [last];
    }
  }

  // ---------------------------------------------------------------- extraction

  /** A batch with some of its transactions, unless that is none. */
  function Part(batch: Batch, transactions: seq<Transaction>): seq<Batch> {
    if transactions == [] then [] else [batch.(transactions := transactions)]
  }

  function PublishOnly(batches: seq<Batch>): seq<Batch> {
    if batches == [] then []
    else
      var last := batches[|batches| - 1];
      PublishOnly(batches[..|batches| - 1]) + Part(last, Publishes(last.transactions))
  }

  function CustomOnly(batches: seq<Batch>): seq<Batch> {
    if batches == [] then []
    else
      var last := batches[|batches| - 1];
      CustomOnly(batches[..|batches| - 1]) + Part(last, Customs(last.transactions))
  }

  lemma PartTransactions(batch: Batch, transactions: seq<Transaction>, rank: int)
    ensures TransactionsOf(Part(batch, transactions), rank) == if Rank(batch) == rank then transactions else []
  {
    if transactions != [] {
      OfOne(batch.(transactions := transactions), rank);
    }
  }

  lemma TransactionsOfLast(batches: seq<Batch>, rank: int)
    requires batches != []
    ensures var last := batches[|batches| - 1];
            TransactionsOf(batches, rank) ==
            TransactionsOf(batches[..|batches| - 1], rank) + if Rank(last) == rank then last.transactions else []
  {
    var init, last := batches[..|batches| - 1], batches[|batches| - 1];
    assert batches == init + [last];
    TransactionsOfConcat(init, [last], rank);
    OfOne(last, rank);
  }

  /** Extraction keeps each epoch's publications in order on one side, and its other transactions on the other. */
  lemma {:induction false} ExtractionSplits(batches: seq<Batch>, rank: int)
    ensures TransactionsOf(PublishOnly(batches), rank) == Publishes(TransactionsOf(batches, rank))
    ensures TransactionsOf(CustomOnly(batches), rank) == Customs(TransactionsOf(batches, rank))
  {
    if batches != [] {
      var init, last := batches[..|batches| - 1], batches[|batches| - 1];
      ExtractionSplits(init, rank);
      TransactionsOfLast(batches, rank);
      TransactionsOfConcat(PublishOnly(init), Part(last, Publishes(last.transactions)), rank);
      TransactionsOfConcat(CustomOnly(init), Part(last, Customs(last.transactions)), rank);
      PartTransactions(last, Publishes(last.transactions), rank);
      PartTransactions(last, Customs(last.transactions), rank);
      PublishesConcat(TransactionsOf(init, rank), if Rank(last) == rank then last.transactions else []);
    }
  }

  /** The two sides by constructor: publications of contracts, real or emulated, and everything else. */
  lemma {:induction false} PartitionKinds(txs: seq<Transaction>)
    ensures forall tx :: tx in Publishes(txs) <==> tx in txs && (tx.ContractPublish? || tx.EmulatedContractPublish?)
    ensures forall tx :: tx in Customs(txs) <==> tx in txs && !tx.ContractPublish? && !tx.EmulatedContractPublish?
  {
    if txs != [] {
      var init, last := txs[..|txs| - 1], txs[|txs| - 1];
      PartitionKinds(init);
      assert txs == init + [last];
    }
  }

  /** Some batch of a deployment, with other transactions. */
  predicate IsFrom(batch: Batch, batches: seq<Batch>) {
    exists b :: b in batches && b.id == batch.id && b.epoch == batch.epoch
  }

  /** A batch that is left: not empty, with the id and epoch of one there was, and publications of contracts, real or
      emulated, and nothing else. */
  ghost predicate IsLeft(batch: Batch, batches: seq<Batch>) {
    && batch.transactions != [] && IsFrom(batch, batches)
    && forall tx :: tx in batch.transactions ==> tx.ContractPublish? || tx.EmulatedContractPublish?
  }

  /** A batch that is taken out: the same, without any of these publications. */
  ghost predicate IsExtracted(batch: Batch, batches: seq<Batch>) {
    && batch.transactions != [] && IsFrom(batch, batches)
    && forall tx :: tx in batch.transactions ==> !tx.ContractPublish? && !tx.EmulatedContractPublish?
  }

  lemma PartsOfOne(init: seq<Batch>, last: Batch)
    ensures forall b :: b in Part(last, Publishes(last.transactions)) ==> IsLeft(b, init + [last])
    ensures forall b :: b in Part(last, Customs(last.transactions)) ==> IsExtracted(b, init + [last])
  {
    PartitionKinds(last.transactions);
    assert last in init + [last];
  }

  lemma FromMore(init: seq<Batch>, last: Batch, b: Batch)
    ensures IsLeft(b, init) ==> IsLeft(b, init + [last])
    ensures IsExtracted(b, init) ==> IsExtracted(b, init + [last])
  {
    if o :| o in init && o.id == b.id && o.epoch == b.epoch {
      assert o in init + [last];
    }
  }

  lemma {:induction false} ExtractionKinds(batches: seq<Batch>)
    ensures forall b :: b in PublishOnly(batches) ==> IsLeft(b, batches)
    ensures forall b :: b in CustomOnly(batches) ==> IsExtracted(b, batches)
  {
    if batches != [] {
      var init, last := batches[..|batches| - 1], batches[|batches| - 1];
      assert batches == init + [last];
      ExtractionKinds(init);
      PartsOfOne(init, last);
      forall b | b in PublishOnly(batches) ensures IsLeft(b, batches) {
        FromMore(init, last, b);
      }
      forall b | b in CustomOnly(batches) ensures IsExtracted(b, batches) {
        FromMore(init, last, b);
      }
    }
  }

  /** Every transaction ends on one side, in its epoch. */
  lemma ExtractionConserves(batches: seq<Batch>, rank: int)
    ensures multiset(TransactionsOf(PublishOnly(batches), rank)) + multiset(TransactionsOf(CustomOnly(batches), rank))
            == multiset(TransactionsOf(batches, rank))
  {
    ExtractionSplits(batches, rank);
    Partition(TransactionsOf(batches, rank));
  }

  lemma EveryEpochIsConserved(batches: seq<Batch>)
    ensures forall rank: int ::
              multiset(TransactionsOf(PublishOnly(batches), rank)) + multiset(TransactionsOf(CustomOnly(batches), rank))
              == multiset(TransactionsOf(batches, rank))
  {
    forall rank: int
      ensures multiset(TransactionsOf(PublishOnly(batches), rank)) + multiset(TransactionsOf(CustomOnly(batches), rank))
              == multiset(TransactionsOf(batches, rank))
    {
      ExtractionConserves(batches, rank);
    }
  }

  // ---------------------------------------------------------------- merging

  /** The first batch with an id and an epoch. */
  function Find(batches: seq<Batch>, id: nat, epoch: Option<Epoch>): (r: Option<nat>)
    ensures r.Some? ==> r.value < |batches| && batches[r.value].id == id && batches[r.value].epoch == epoch
    ensures forall k :: 0 <= k < (if r.Some? then r.value else |batches|) ==>
              batches[k].id != id || batches[k].epoch != epoch
  {
    if batches == [] then None
    else
      var last := |batches| - 1;
      var earlier := Find(batches[..last], id, epoch);
      if earlier.Some? then earlier
      else if batches[last].id == id && batches[last].epoch == epoch then Some(last)
      else None
  }

  function MergeOne(batches: seq<Batch>, custom: Batch): seq<Batch> {
    var found := Find(batches, custom.id, custom.epoch);
    if found.Some? then
      var batch := batches[found.value];
      batches[found.value := batch.(transactions := batch.transactions + custom.transactions)]
    else if custom.transactions != [] then batches + [custom]
    else batches
  }

  function MergeAll(batches: seq<Batch>, customs: seq<Batch>): seq<Batch> {
    if customs == [] then batches
    else MergeOne(MergeAll(batches, customs[..|customs| - 1]), customs[|customs| - 1])
  }

  /** A merged batch lands in its own epoch: its transactions follow some of that epoch's, before the rest of them. */
  lemma MergeOneInserts(batches: seq<Batch>, custom: Batch, rank: int)
      returns (before: seq<Transaction>, after: seq<Transaction>)
    ensures TransactionsOf(batches, rank) == before + after
    ensures TransactionsOf(MergeOne(batches, custom), rank) ==
            before + (if Rank(custom) == rank then custom.transactions else []) + after
  {
    var found := Find(batches, custom.id, custom.epoch);
    if found.None? {
      before, after := TransactionsOf(batches, rank), [];
      if custom.transactions != [] {
        TransactionsOfConcat(batches, [custom], rank);
        OfOne(custom, rank);
      }
      return;
    }
    var k := found.value;
    assert batches == batches[..k] + [batches[k]] + batches[k + 1..];
    RankIsEpoch(batches[k], custom);
    before, after := LongerBatch(batches[..k], batches[k], custom.transactions, batches[k + 1..], rank);
    var longer := batches[k].(transactions := batches[k].transactions + custom.transactions);
    assert MergeOne(batches, custom) == batches[..k] + [longer] + batches[k + 1..];
  }

  lemma LongerBatch(earlier: seq<Batch>, batch: Batch, added: seq<Transaction>, later: seq<Batch>, rank: int)
      returns (before: seq<Transaction>, after: seq<Transaction>)
    ensures TransactionsOf(earlier + [batch] + later, rank) == before + after
    ensures TransactionsOf(earlier + [batch.(transactions := batch.transactions + added)] + later, rank) ==
            before + (if Rank(batch) == rank then added else []) + after
  {
    var longer := batch.(transactions := batch.transactions + added);
    SplitInThree(earlier, batch, later, rank);
    SplitInThree(earlier, longer, later, rank);
    OfOne(batch, rank);
    OfOne(longer, rank);
    before := TransactionsOf(earlier, rank) + TransactionsOf([batch], rank);
    after := TransactionsOf(later, rank);
    var here := if Rank(batch) == rank then added else [];
    AppendNothing(TransactionsOf([batch], rank));
    assert TransactionsOf([longer], rank) == TransactionsOf([batch], rank) + here;
    Assoc(TransactionsOf(earlier, rank), TransactionsOf([batch], rank), here);
  }

  lemma SplitInThree(before: seq<Batch>, batch: Batch, after: seq<Batch>, rank: int)
    ensures TransactionsOf(before + [batch] + after, rank) ==
            TransactionsOf(before, rank) + TransactionsOf([batch], rank) + TransactionsOf(after, rank)
  {
    TransactionsOfConcat(before + [batch], after, rank);
    TransactionsOfConcat(before, [batch], rank);
  }

  /** A merged batch adds its transactions to its own epoch, and leaves the publications' order alone if it has none. */
  lemma MergeOneAdds(batches: seq<Batch>, custom: Batch, rank: int)
    ensures multiset(TransactionsOf(MergeOne(batches, custom), rank)) ==
            multiset(TransactionsOf(batches, rank)) + multiset(if Rank(custom) == rank then custom.transactions else [])
    ensures Publishes(custom.transactions) == [] ==>
            Publishes(TransactionsOf(MergeOne(batches, custom), rank)) == Publishes(TransactionsOf(batches, rank))
  {
    var before, after := MergeOneInserts(batches, custom, rank);
    InsertedAdds(before, if Rank(custom) == rank then custom.transactions else [], after);
  }

  lemma InsertedAdds(before: seq<Transaction>, added: seq<Transaction>, after: seq<Transaction>)
    ensures multiset(before + added + after) == multiset(before + after) + multiset(added)
    ensures Publishes(added) == [] ==> Publishes(before + added + after) == Publishes(before + after)
  {
    PublishesConcat(before, after);
    PublishesConcat(before + added, after);
    PublishesConcat(before, added);
    assert Publishes(added) == [] ==> Publishes(before) + Publishes(added) == Publishes(before);
  }

  /** Merging conserves every epoch's transactions. */
  lemma {:induction false} MergeAllAdds(batches: seq<Batch>, customs: seq<Batch>, rank: int)
    ensures multiset(TransactionsOf(MergeAll(batches, customs), rank)) ==
            multiset(TransactionsOf(batches, rank)) + multiset(TransactionsOf(customs, rank))
  {
    if customs != [] {
      var init, last := customs[..|customs| - 1], customs[|customs| - 1];
      MergeAllAdds(batches, init, rank);
      MergeOneAdds(MergeAll(batches, init), last, rank);
      TransactionsOfLast(customs, rank);
      CountsAdd(TransactionsOf(init, rank), if Rank(last) == rank then last.transactions else []);
    }
  }

  lemma CountsAdd(a: seq<Transaction>, b: seq<Transaction>)
    ensures multiset(a + b) == multiset(a) + multiset(b)
  {
  }

  /** Merging batches without publications leaves every epoch's publications in order. */
  lemma {:induction false} MergeAllKeepsPublishes(batches: seq<Batch>, customs: seq<Batch>, rank: int)
    requires forall k :: 0 <= k < |customs| ==> Publishes(customs[k].transactions) == []
    ensures Publishes(TransactionsOf(MergeAll(batches, customs), rank)) == Publishes(TransactionsOf(batches, rank))
  {
    if customs != [] {
      var init, last := customs[..|customs| - 1], customs[|customs| - 1];
      MergeAllKeepsPublishes(batches, init, rank);
      MergeOneAdds(MergeAll(batches, init), last, rank);
    }
  }

  // ---------------------------------------------------------------- sorting and renumbering

  /** The batches below a rank, sorted by it; batches of one rank stay in order. */
  function SortedBelow(batches: seq<Batch>, end: nat): seq<Batch> {
    if end == 0 then [] else SortedBelow(batches, end - 1) + Of(batches, end - 1)
  }

  function Sorted(batches: seq<Batch>): seq<Batch> {
    SortedBelow(batches, RANKS)
  }

  function Renumbered(batches: seq<Batch>): (renumbered: seq<Batch>)
    ensures |renumbered| == |batches|
    ensures forall i :: 0 <= i < |batches| ==> renumbered[i] == batches[i].(id := i)
  {
    seq(|batches|, i requires 0 <= i < |batches| => batches[i].(id := i))
  }

  /** Merging as the deployment does it: then sort by epoch, then renumber. */
  function Merged(batches: seq<Batch>, customs: seq<Batch>): seq<Batch> {
    Renumbered(Sorted(MergeAll(batches, customs)))
  }

  lemma {:induction false} OfMembers(batches: seq<Batch>, rank: int)
    ensures forall k :: 0 <= k < |Of(batches, rank)| ==> Rank(Of(batches, rank)[k]) == rank
  {
    if batches != [] {
      OfMembers(batches[..|batches| - 1], rank);
    }
  }

  lemma {:induction false} OfSameRank(batches: seq<Batch>, own: int, rank: int)
    requires forall k :: 0 <= k < |batches| ==> Rank(batches[k]) == own
    ensures Of(batches, rank) == if rank == own then batches else []
  {
    if batches != [] {
      OfSameRank(batches[..|batches| - 1], own, rank);
    }
  }

  lemma NoneOfRank(batches: seq<Batch>, end: nat, rank: int)
    requires !(0 <= rank < end)
    ensures Of(SortedBelow(batches, end), rank) == []
  {
    SortedIsInOrder(batches, end);
    NoneHasRank(SortedBelow(batches, end), rank);
  }

  lemma {:induction false} NoneHasRank(batches: seq<Batch>, rank: int)
    requires forall k :: 0 <= k < |batches| ==> Rank(batches[k]) != rank
    ensures Of(batches, rank) == []
  {
    if batches != [] {
      NoneHasRank(batches[..|batches| - 1], rank);
    }
  }

  /** Sorting leaves every epoch's batches in their order. */
  lemma {:induction false} SortingIsStable(batches: seq<Batch>, end: nat, rank: nat)
    requires rank < end
    ensures Of(SortedBelow(batches, end), rank) == Of(batches, rank)
  {
    if rank < end - 1 {
      SortingIsStable(batches, end - 1, rank);
    } else {
      NoneOfRank(batches, rank, rank);
    }
    OneEpochMore(batches, SortedBelow(batches, end - 1), end - 1, rank);
  }

  lemma OneEpochMore(batches: seq<Batch>, lower: seq<Batch>, own: int, rank: int)
    requires rank == own ==> Of(lower, rank) == []
    ensures Of(lower + Of(batches, own), rank) == if rank == own then Of(batches, own) else Of(lower, rank)
  {
    OfMembers(batches, own);
    StableStep(lower, Of(batches, own), own, rank);
  }

  lemma StableStep(lower: seq<Batch>, own: seq<Batch>, ownRank: int, rank: int)
    requires forall k :: 0 <= k < |own| ==> Rank(own[k]) == ownRank
    requires rank == ownRank ==> Of(lower, rank) == []
    ensures Of(lower + own, rank) == if rank == ownRank then own else Of(lower, rank)
  {
    OfConcat(lower, own, rank);
    OfSameRank(own, ownRank, rank);
    AppendNothing(own);
    AppendNothing(Of(lower, rank));
  }

  predicate InOrder(batches: seq<Batch>) {
    forall i, j :: 0 <= i < j < |batches| ==> Rank(batches[i]) <= Rank(batches[j])
  }

  lemma {:induction false} SortedIsInOrder(batches: seq<Batch>, end: nat)
    ensures InOrder(SortedBelow(batches, end))
    ensures forall i :: 0 <= i < |SortedBelow(batches, end)| ==> Rank(SortedBelow(batches, end)[i]) < end
  {
    if end > 0 {
      SortedIsInOrder(batches, end - 1);
      OfMembers(batches, end - 1);
      var lower, own := SortedBelow(batches, end - 1), Of(batches, end - 1);
      var all := SortedBelow(batches, end);
      assert all == lower + own;
      forall i | 0 <= i < |all| ensures all[i] == if i < |lower| then lower[i] else own[i - |lower|] {
      }
    }
  }

  lemma {:induction false} RenumberingKeepsTransactions(batches: seq<Batch>, rank: int)
    ensures TransactionsOf(Renumbered(batches), rank) == TransactionsOf(batches, rank)
  {
    if batches != [] {
      var init := batches[..|batches| - 1];
      RenumberingKeepsTransactions(init, rank);
      assert Renumbered(batches)[..|init|] == Renumbered(init);
      TransactionsOfLast(batches, rank);
      TransactionsOfLast(Renumbered(batches), rank);
    }
  }

  /** Sorting and renumbering leave every epoch's transactions in order. */
  lemma SortedTransactions(batches: seq<Batch>, rank: int)
    ensures TransactionsOf(Renumbered(Sorted(batches)), rank) == TransactionsOf(batches, rank)
  {
    RenumberingKeepsTransactions(Sorted(batches), rank);
    if 0 <= rank < RANKS {
      SortingIsStable(batches, RANKS, rank);
    } else {
      NoneHasRank(batches, rank);
      NoneOfRank(batches, RANKS, rank);
    }
  }

  lemma SortedAndRenumbered(batches: seq<Batch>)
    ensures var sorted := Renumbered(Sorted(batches));
            && (forall i :: 0 <= i < |sorted| ==> sorted[i].id == i)
            && (forall i, j :: 0 <= i < j < |sorted| && sorted[i].epoch.Some? ==>
                  sorted[j].epoch.Some? && sorted[i].epoch.value <= sorted[j].epoch.value)
            && (forall rank: int :: TransactionsOf(sorted, rank) == TransactionsOf(batches, rank))
  {
    RenumberedIsSorted(batches);
    NumberedAndSorted(Renumbered(Sorted(batches)));
    forall rank: int ensures TransactionsOf(Renumbered(Sorted(batches)), rank) == TransactionsOf(batches, rank) {
      SortedTransactions(batches, rank);
    }
  }

  /** Ids are positions and epochs never go back. */
  predicate IsNumberedAndSorted(batches: seq<Batch>) {
    InOrder(batches) && forall i :: 0 <= i < |batches| ==> batches[i].id == i
  }

  lemma RenumberedIsSorted(batches: seq<Batch>)
    ensures IsNumberedAndSorted(Renumbered(Sorted(batches)))
  {
    var sorted := Sorted(batches);
    SortedIsInOrder(batches, RANKS);
    assert forall i :: 0 <= i < |sorted| ==> Rank(Renumbered(sorted)[i]) == Rank(sorted[i]);
  }

  /** The same spelled out: batches without an epoch come first, then the epochs ascend, and every id is a position. */
  lemma NumberedAndSorted(batches: seq<Batch>)
    requires IsNumberedAndSorted(batches)
    ensures forall i :: 0 <= i < |batches| ==> batches[i].id == i
    ensures forall i, j :: 0 <= i < j < |batches| && batches[i].epoch.Some? ==>
              batches[j].epoch.Some? && batches[i].epoch.value <= batches[j].epoch.value
  {
    forall i, j | 0 <= i < j < |batches| ensures Rank(batches[i]) <= Rank(batches[j]) {
    }
  }

  /** Merging any batches into a deployment conserves every epoch's transactions. */
  lemma MergeConserves(batches: seq<Batch>, customs: seq<Batch>, rank: int)
    ensures multiset(TransactionsOf(Merged(batches, customs), rank)) ==
            multiset(TransactionsOf(batches, rank)) + multiset(TransactionsOf(customs, rank))
  {
    SortedTransactions(MergeAll(batches, customs), rank);
    MergeAllAdds(batches, customs, rank);
  }

  // ---------------------------------------------------------------- there and back

  /** Extract, then merge back. */
  function Remerged(batches: seq<Batch>): seq<Batch> {
    Merged(PublishOnly(batches), CustomOnly(batches))
  }

  lemma {:induction false} NoPublishesAmongCustoms(txs: seq<Transaction>)
    ensures Publishes(Customs(txs)) == []
  {
    if txs != [] {
      var init, last := txs[..|txs| - 1], txs[|txs| - 1];
      NoPublishesAmongCustoms(init);
      PublishesConcat(Customs(init), if IsPublish(last) then [] else [last]);
      assert [last][..0] == [];
    }
  }

  lemma {:induction false} CustomOnlyHasNoPublishes(batches: seq<Batch>)
    ensures forall k :: 0 <= k < |CustomOnly(batches)| ==>
              Publishes(CustomOnly(batches)[k].transactions) == [] && CustomOnly(batches)[k].transactions != []
  {
    if batches != [] {
      CustomOnlyHasNoPublishes(batches[..|batches| - 1]);
      NoPublishesAmongCustoms(batches[|batches| - 1].transactions);
    }
  }

  /** Extracting and merging back keeps each epoch's publications in their order and each epoch's transactions as
      a whole, and leaves the batches sorted and numbered, whatever ids and epochs the batches had. */
  lemma RemergedKeepsEpochs(batches: seq<Batch>, rank: int)
    ensures Publishes(TransactionsOf(Remerged(batches), rank)) == Publishes(TransactionsOf(batches, rank))
    ensures multiset(TransactionsOf(Remerged(batches), rank)) == multiset(TransactionsOf(batches, rank))
    ensures IsNumberedAndSorted(Remerged(batches))
  {
    RemergedKeepsPublishes(batches, rank);
    RemergedConserves(batches, rank);
    RenumberedIsSorted(MergeAll(PublishOnly(batches), CustomOnly(batches)));
  }

  lemma RemergedKeepsPublishes(batches: seq<Batch>, rank: int)
    ensures Publishes(TransactionsOf(Remerged(batches), rank)) == Publishes(TransactionsOf(batches, rank))
  {
    var published, customs := PublishOnly(batches), CustomOnly(batches);
    CustomOnlyHasNoPublishes(batches);
    SortedTransactions(MergeAll(published, customs), rank);
    MergeAllKeepsPublishes(published, customs, rank);
    ExtractionSplits(batches, rank);
    PublishesAgain(TransactionsOf(batches, rank));
  }

  lemma RemergedConserves(batches: seq<Batch>, rank: int)
    ensures multiset(TransactionsOf(Remerged(batches), rank)) == multiset(TransactionsOf(batches, rank))
  {
    MergeConserves(PublishOnly(batches), CustomOnly(batches), rank);
    ExtractionSplits(batches, rank);
    Partition(TransactionsOf(batches, rank));
  }

  lemma {:induction false} PublishesAgain(txs: seq<Transaction>)
    ensures Publishes(Publishes(txs)) == Publishes(txs)
  {
    if txs != [] {
      var init, last := txs[..|txs| - 1], txs[|txs| - 1];
      PublishesAgain(init);
      PublishesConcat(Publishes(init), if IsPublish(last) then [last] else []);
      assert [last][..0] == [];
    }
  }

  // ---------------------------------------------------------------- when nothing changes

  predicate HasPublishes(batch: Batch) {
    Publishes(batch.transactions) != []
  }

  /** A batch is not empty, and its publications come first. */
  predicate PublishesFirst(batch: Batch) {
    && batch.transactions != []
    && batch.transactions == Publishes(batch.transactions) + Customs(batch.transactions)
  }

  predicate Each(batches: seq<Batch>, good: Batch -> bool) {
    forall i :: 0 <= i < |batches| ==> good(batches[i])
  }

  /** Those that have come before those that have not. */
  predicate Leading(batches: seq<Batch>, has: Batch -> bool) {
    forall i, j :: 0 <= i < j < |batches| && has(batches[j]) ==> has(batches[i])
  }

  /** Batches in this form, and none with publications after one without. */
  predicate Shaped(batches: seq<Batch>) {
    Each(batches, PublishesFirst) && Leading(batches, HasPublishes)
  }

  /** What extracting and merging back makes of a deployment. */
  ghost predicate Settled(batches: seq<Batch>) {
    IsNumberedAndSorted(batches) && forall rank: int :: Shaped(Of(batches, rank))
  }

  lemma {:induction false} OnlyCustoms(txs: seq<Transaction>)
    requires Publishes(txs) == []
    ensures Customs(txs) == txs
  {
    if txs != [] {
      OnlyCustoms(txs[..|txs| - 1]);
    }
  }

  lemma {:induction false} CustomsAgain(txs: seq<Transaction>)
    ensures Customs(Publishes(txs)) == []
  {
    if txs != [] {
      var init, last := txs[..|txs| - 1], txs[|txs| - 1];
      CustomsAgain(init);
      PublishesConcat(Publishes(init), if IsPublish(last) then [last] else []);
      assert [last][..0] == [];
    }
  }

  /** Adding transactions without publications to a batch keeps its form. */
  lemma AddingCustoms(batch: Batch, added: seq<Transaction>)
    requires PublishesFirst(batch) && Publishes(added) == []
    ensures PublishesFirst(batch.(transactions := batch.transactions + added))
    ensures HasPublishes(batch.(transactions := batch.transactions + added)) == HasPublishes(batch)
  {
    PublishesConcat(batch.transactions, added);
    OnlyCustoms(added);
    var t := batch.transactions;
    AppendNothing(Publishes(t));
    Assoc(Publishes(t), Customs(t), added);
  }

  lemma ReplacedIsLeading(batches: seq<Batch>, k: nat, batch: Batch, has: Batch -> bool, good: Batch -> bool)
    requires k < |batches| && Each(batches, good) && Leading(batches, has)
    requires good(batch) && has(batch) == has(batches[k])
    ensures Each(batches[k := batch], good) && Leading(batches[k := batch], has)
  {
  }

  lemma AppendedIsLeading(batches: seq<Batch>, batch: Batch, has: Batch -> bool, good: Batch -> bool)
    requires Each(batches, good) && Leading(batches, has)
    requires good(batch) && !has(batch)
    ensures Each(batches + [batch], good) && Leading(batches + [batch], has)
  {
  }

  lemma MergeOneIsShaped(batches: seq<Batch>, custom: Batch)
    requires Shaped(batches) && Publishes(custom.transactions) == [] && custom.transactions != []
    ensures Shaped(MergeOne(batches, custom))
  {
    var found := Find(batches, custom.id, custom.epoch);
    if found.Some? {
      var batch := batches[found.value];
      assert PublishesFirst(batch);
      AddingCustoms(batch, custom.transactions);
      ReplacedIsLeading(batches, found.value, batch.(transactions := batch.transactions + custom.transactions),
          HasPublishes, PublishesFirst);
    } else {
      OnlyCustoms(custom.transactions);
      assert [] + custom.transactions == custom.transactions;
      AppendedIsLeading(batches, custom, HasPublishes, PublishesFirst);
    }
  }

  lemma {:induction false} MergeAllIsShaped(batches: seq<Batch>, customs: seq<Batch>)
    requires Shaped(batches)
    requires forall k :: 0 <= k < |customs| ==>
               Publishes(customs[k].transactions) == [] && customs[k].transactions != []
    ensures Shaped(MergeAll(batches, customs))
  {
    if customs != [] {
      MergeAllIsShaped(batches, customs[..|customs| - 1]);
      MergeOneIsShaped(MergeAll(batches, customs[..|customs| - 1]), customs[|customs| - 1]);
    }
  }

  lemma {:induction false} PublishOnlyIsShaped(batches: seq<Batch>)
    ensures forall k :: 0 <= k < |PublishOnly(batches)| ==>
              PublishesFirst(PublishOnly(batches)[k]) && HasPublishes(PublishOnly(batches)[k])
  {
    if batches != [] {
      var last := batches[|batches| - 1];
      PublishOnlyIsShaped(batches[..|batches| - 1]);
      PublishesAgain(last.transactions);
      CustomsAgain(last.transactions);
      assert Publishes(last.transactions) + [] == Publishes(last.transactions);
    }
  }

  lemma {:induction false} OfIsLeading(batches: seq<Batch>, rank: int, has: Batch -> bool, good: Batch -> bool)
    requires Each(batches, good) && Leading(batches, has)
    ensures Each(Of(batches, rank), good) && Leading(Of(batches, rank), has)
    ensures forall k :: 0 <= k < |Of(batches, rank)| ==> Of(batches, rank)[k] in batches
  {
    if batches != [] {
      var init, last := batches[..|batches| - 1], batches[|batches| - 1];
      OfIsLeading(init, rank, has, good);
      var own := Of(init, rank);
      forall k | 0 <= k < |own| ensures has(last) ==> has(own[k]) {
        var i :| 0 <= i < |init| && init[i] == own[k];
        assert batches[i] == init[i];
      }
    }
  }

  predicate SameButIds(a: seq<Batch>, b: seq<Batch>) {
    |a| == |b| && forall k :: 0 <= k < |a| ==> a[k].epoch == b[k].epoch && a[k].transactions == b[k].transactions
  }

  lemma {:induction false} OfSameButIds(a: seq<Batch>, b: seq<Batch>, rank: int)
    requires SameButIds(a, b)
    ensures SameButIds(Of(a, rank), Of(b, rank))
  {
    if a != [] {
      OfSameButIds(a[..|a| - 1], b[..|b| - 1], rank);
    }
  }

  lemma SameButIdsIsShaped(a: seq<Batch>, b: seq<Batch>)
    requires SameButIds(b, a) && Shaped(a)
    ensures Shaped(b)
  {
    forall k | 0 <= k < |a| ensures PublishesFirst(b[k]) == PublishesFirst(a[k]) &&
        HasPublishes(b[k]) == HasPublishes(a[k]) {
      assert b[k].transactions == a[k].transactions;
    }
  }

  /** Whatever the deployment was, extracting and merging back settles it. */
  lemma RemergedIsSettled(batches: seq<Batch>)
    ensures Settled(Remerged(batches))
  {
    var merged := MergeAll(PublishOnly(batches), CustomOnly(batches));
    PublishOnlyIsShaped(batches);
    CustomOnlyHasNoPublishes(batches);
    MergeAllIsShaped(PublishOnly(batches), CustomOnly(batches));
    RenumberedIsSorted(MergeAll(PublishOnly(batches), CustomOnly(batches)));
    forall rank: int ensures Shaped(Of(Remerged(batches), rank)) {
      RenumberedIsShaped(merged, rank);
    }
  }

  lemma RenumberedIsShaped(merged: seq<Batch>, rank: int)
    requires Shaped(merged)
    ensures Shaped(Of(Renumbered(Sorted(merged)), rank))
  {
    OfSameButIds(Renumbered(Sorted(merged)), Sorted(merged), rank);
    if 0 <= rank < RANKS {
      OfIsLeading(merged, rank, HasPublishes, PublishesFirst);
      SortingIsStable(merged, RANKS, rank);
      SameButIdsIsShaped(Of(merged, rank), Of(Renumbered(Sorted(merged)), rank));
    } else {
      NoneOfRank(merged, RANKS, rank);
    }
  }

  function With(batches: seq<Batch>, has: Batch -> bool): seq<Batch> {
    if batches == [] then []
    else
      var last := batches[|batches| - 1];
      With(batches[..|batches| - 1], has) + (if has(last) then [last] else [])
  }

  function Without(batches: seq<Batch>, has: Batch -> bool): seq<Batch> {
    if batches == [] then []
    else
      var last := batches[|batches| - 1];
      Without(batches[..|batches| - 1], has) + (if has(last) then [] else [last])
  }

  lemma {:induction false} PublishOnlyCons(batches: seq<Batch>)
    requires batches != []
    ensures PublishOnly(batches) == Part(batches[0], Publishes(batches[0].transactions)) + PublishOnly(batches[1..])
  {
    if |batches| > 1 {
      var init, last := batches[..|batches| - 1], batches[|batches| - 1];
      PublishOnlyCons(init);
      assert batches[1..][..|batches[1..]| - 1] == init[1..];
    } else {
      assert batches[..0] == [] && batches[1..] == [];
    }
  }

  ghost predicate IdsIn(batches: seq<Batch>, low: int, high: int) {
    forall i :: 0 <= i < |batches| ==> low <= batches[i].id < high
  }

  lemma {:induction false} IdsOfParts(batches: seq<Batch>, has: Batch -> bool, low: int, high: int)
    requires IdsIn(batches, low, high)
    ensures IdsIn(With(batches, has), low, high) && IdsIn(Without(batches, has), low, high)
  {
    if batches != [] {
      IdsOfParts(batches[..|batches| - 1], has, low, high);
    }
  }

  lemma {:induction false} IdsOfPublishOnly(batches: seq<Batch>, low: int, high: int)
    requires IdsIn(batches, low, high)
    ensures IdsIn(PublishOnly(batches), low, high)
  {
    if batches != [] {
      IdsOfPublishOnly(batches[..|batches| - 1], low, high);
    }
  }

  /** A batch whose id only one other has, and in its epoch, is merged into that one. */
  lemma MergeAt(before: seq<Batch>, batch: Batch, after: seq<Batch>, custom: Batch)
    requires forall i :: 0 <= i < |before| ==> before[i].id != batch.id
    requires custom.id == batch.id && custom.epoch == batch.epoch
    ensures MergeOne(before + [batch] + after, custom) ==
            before + [batch.(transactions := batch.transactions + custom.transactions)] + after
  {
    var all := before + [batch] + after;
    assert all[|before|] == batch;
    assert forall i :: 0 <= i < |before| ==> all[i] == before[i];
    assert Find(all, custom.id, custom.epoch) == Some(|before|);
  }

  lemma MergeNowhere(batches: seq<Batch>, custom: Batch)
    requires forall i :: 0 <= i < |batches| ==> batches[i].id != custom.id
    requires custom.transactions != []
    ensures MergeOne(batches, custom) == batches + [custom]
  {
  }

  ghost predicate Restorable(batches: seq<Batch>) {
    forall i :: 0 <= i < |batches| ==> batches[i].id == i && PublishesFirst(batches[i])
  }

  /** What merging back the first batches' other transactions has restored. */
  ghost predicate RestoredTo(batches: seq<Batch>, k: nat)
    requires k <= |batches|
  {
    MergeAll(PublishOnly(batches), CustomOnly(batches[..k])) ==
    With(batches[..k], HasPublishes) + PublishOnly(batches[k..]) + Without(batches[..k], HasPublishes)
  }

  lemma NothingRestored(batches: seq<Batch>)
    ensures RestoredTo(batches, 0)
  {
    assert batches[..0] == [] && batches[0..] == batches;
    AppendNothing(PublishOnly(batches));
  }

  lemma {:induction false} RestoredSoFar(batches: seq<Batch>, k: nat)
    requires k <= |batches| && Restorable(batches)
    ensures RestoredTo(batches, k)
  {
    if k == 0 {
      NothingRestored(batches);
    } else {
      RestoredSoFar(batches, k - 1);
      RestoreOne(batches, k - 1);
    }
  }

  /** One batch: its publications are in the list, and its other transactions are merged into them, or appended
      when it has no publications. */
  lemma RestoreBatch(with: seq<Batch>, b: Batch, later: seq<Batch>, without: seq<Batch>)
    requires PublishesFirst(b) && Customs(b.transactions) != []
    requires forall x :: x in with + later + without ==> x.id != b.id
    ensures MergeOne(with + Part(b, Publishes(b.transactions)) + later + without,
              b.(transactions := Customs(b.transactions))) ==
            if HasPublishes(b) then with + [b] + later + without else with + later + without + [b]
  {
    var custom := b.(transactions := Customs(b.transactions));
    if HasPublishes(b) {
      var part := b.(transactions := Publishes(b.transactions));
      RestoreInPlace(with, part, b, later, without, custom);
    } else {
      AppendNothing(Customs(b.transactions));
      AppendNothing(with);
      MergeNowhere(with + later + without, custom);
    }
  }

  lemma RestoreInPlace(with: seq<Batch>, part: Batch, b: Batch, later: seq<Batch>, without: seq<Batch>, custom: Batch)
    requires custom.id == part.id && custom.epoch == part.epoch
    requires b == part.(transactions := part.transactions + custom.transactions)
    requires forall x :: x in with + later + without ==> x.id != custom.id
    ensures MergeOne(with + [part] + later + without, custom) == with + [b] + later + without
  {
    Assoc(with + [part], later, without);
    Assoc(with + [b], later, without);
    assert forall x :: x in with ==> x in with + later + without;
    MergeAt(with, part, later + without, custom);
  }

  lemma RestoreOne(batches: seq<Batch>, k: nat)
    requires k < |batches| && Restorable(batches) && RestoredTo(batches, k)
    ensures RestoredTo(batches, k + 1)
  {
    var b := batches[k];
    assert PublishesFirst(b);
    if Customs(b.transactions) == [] {
      NothingToRestore(batches, k);
    } else {
      SomethingToRestore(batches, k);
    }
  }

  lemma OthersHaveOtherIds(batches: seq<Batch>, k: nat)
    requires k < |batches| && Restorable(batches)
    ensures var with, without := With(batches[..k], HasPublishes), Without(batches[..k], HasPublishes);
            forall x :: x in with + PublishOnly(batches[k + 1..]) + without ==> x.id != batches[k].id
  {
    IdsOfParts(batches[..k], HasPublishes, 0, k);
    IdsOfPublishOnly(batches[k + 1..], k + 1, |batches|);
  }

  lemma WithOneMore(batches: seq<Batch>, k: nat, has: Batch -> bool)
    requires k < |batches|
    ensures With(batches[..k + 1], has) == With(batches[..k], has) + (if has(batches[k]) then [batches[k]] else [])
    ensures Without(batches[..k + 1], has) ==
              Without(batches[..k], has) + (if has(batches[k]) then [] else [batches[k]])
  {
    assert batches[..k + 1][..k] == batches[..k];
  }

  lemma NextPart(batches: seq<Batch>, k: nat)
    requires k < |batches|
    ensures PublishOnly(batches[k..]) ==
              Part(batches[k], Publishes(batches[k].transactions)) + PublishOnly(batches[k + 1..])
  {
    PublishOnlyCons(batches[k..]);
    assert batches[k..][1..] == batches[k + 1..];
  }

  lemma Regroup(a: seq<Batch>, b: seq<Batch>, c: seq<Batch>, d: seq<Batch>)
    ensures a + (b + c) + d == a + b + c + d == a + b + (c + d)
  {
  }

  lemma SomethingToRestore(batches: seq<Batch>, k: nat)
    requires k < |batches| && Restorable(batches) && RestoredTo(batches, k)
    requires PublishesFirst(batches[k]) && Customs(batches[k].transactions) != []
    ensures RestoredTo(batches, k + 1)
  {
    var b := batches[k];
    var with, without := With(batches[..k], HasPublishes), Without(batches[..k], HasPublishes);
    var part, later := Part(b, Publishes(b.transactions)), PublishOnly(batches[k + 1..]);
    NextPart(batches, k);
    OthersHaveOtherIds(batches, k);
    Regroup(with, part, later, without);
    RestoreBatch(with, b, later, without);
    CustomsOfOne(batches, k);
    WithOneMore(batches, k, HasPublishes);
    Regroup(with, later, without, [b]);
    AppendNothing(with);
    AppendNothing(without);
  }

  lemma CustomsOfOne(batches: seq<Batch>, k: nat)
    requires k < |batches| && Customs(batches[k].transactions) != []
    ensures MergeAll(PublishOnly(batches), CustomOnly(batches[..k + 1])) ==
            MergeOne(MergeAll(PublishOnly(batches), CustomOnly(batches[..k])),
                batches[k].(transactions := Customs(batches[k].transactions)))
  {
    assert batches[..k + 1][..k] == batches[..k];
    var custom := batches[k].(transactions := Customs(batches[k].transactions));
    assert CustomOnly(batches[..k + 1]) == CustomOnly(batches[..k]) + [custom];
    assert (CustomOnly(batches[..k]) + [custom])[..|CustomOnly(batches[..k])|] == CustomOnly(batches[..k]);
  }

  lemma NothingToRestore(batches: seq<Batch>, k: nat)
    requires k < |batches| && RestoredTo(batches, k)
    requires PublishesFirst(batches[k]) && Customs(batches[k].transactions) == []
    ensures RestoredTo(batches, k + 1)
  {
    var b := batches[k];
    var with, without, later := With(batches[..k], HasPublishes), Without(batches[..k], HasPublishes),
        PublishOnly(batches[k + 1..]);
    AppendNothing(Publishes(b.transactions));
    NextPart(batches, k);
    NoCustomsOfOne(batches, k);
    WithOneMore(batches, k, HasPublishes);
    AppendNothing(without);
    Assoc(with, [b], later);
  }

  lemma NoCustomsOfOne(batches: seq<Batch>, k: nat)
    requires k < |batches| && Customs(batches[k].transactions) == []
    ensures CustomOnly(batches[..k + 1]) == CustomOnly(batches[..k])
  {
    assert batches[..k + 1][..k] == batches[..k];
    AppendNothing(CustomOnly(batches[..k]));
  }

  lemma WithLast(init: seq<Batch>, last: Batch, has: Batch -> bool)
    ensures With(init + [last], has) == if has(last) then With(init, has) + [last] else With(init, has)
  {
    assert (init + [last])[..|init|] == init;
    AppendNothing(With(init, has));
  }

  lemma {:induction false} OfWithOnly(batches: seq<Batch>, rank: int, has: Batch -> bool)
    ensures Of(With(batches, has), rank) == With(Of(batches, rank), has)
  {
    if batches != [] {
      var init, last := batches[..|batches| - 1], batches[|batches| - 1];
      OfWithOnly(init, rank, has);
      assert batches == init + [last];
      WithLast(init, last, has);
      OfWithLast(init, last, rank);
      OfWithLast(With(init, has), last, rank);
      WithLast(Of(init, rank), last, has);
    }
  }

  lemma {:induction false} WithoutIsWith(batches: seq<Batch>, has: Batch -> bool, lacks: Batch -> bool)
    requires forall b: Batch :: lacks(b) == !has(b)
    ensures Without(batches, has) == With(batches, lacks)
  {
    if batches != [] {
      WithoutIsWith(batches[..|batches| - 1], has, lacks);
    }
  }

  lemma OfWith(batches: seq<Batch>, rank: int, has: Batch -> bool)
    ensures Of(With(batches, has), rank) == With(Of(batches, rank), has)
    ensures Of(Without(batches, has), rank) == Without(Of(batches, rank), has)
  {
    var lacks := (b: Batch) => !has(b);
    OfWithOnly(batches, rank, has);
    OfWithOnly(batches, rank, lacks);
    WithoutIsWith(batches, has, lacks);
    WithoutIsWith(Of(batches, rank), has, lacks);
  }

  lemma {:induction false} WithThenWithout(batches: seq<Batch>, has: Batch -> bool)
    requires Leading(batches, has)
    ensures With(batches, has) + Without(batches, has) == batches
    ensures batches != [] && has(batches[|batches| - 1]) ==> Without(batches, has) == []
  {
    if batches != [] {
      var init, last := batches[..|batches| - 1], batches[|batches| - 1];
      WithThenWithout(init, has);
      assert batches == init + [last];
      if has(last) {
        assert init != [] ==> has(batches[|init| - 1]);
        AppendNothing(With(init, has));
        AppendNothing(With(init, has) + [last]);
      } else {
        AppendNothing(With(init, has));
        Assoc(With(init, has), Without(init, has), [last]);
      }
    }
  }

  lemma {:induction false} SortedAlike(a: seq<Batch>, b: seq<Batch>, end: nat)
    requires forall rank: int :: Of(a, rank) == Of(b, rank)
    ensures SortedBelow(a, end) == SortedBelow(b, end)
  {
    if end > 0 {
      SortedAlike(a, b, end - 1);
      assert Of(a, end - 1) == Of(b, end - 1);
    }
  }

  lemma {:induction false} SortedWithLast(init: seq<Batch>, last: Batch, end: nat)
    requires forall i :: 0 <= i < |init| ==> Rank(init[i]) <= Rank(last)
    ensures SortedBelow(init + [last], end) ==
            if Rank(last) < end then SortedBelow(init, end) + [last] else SortedBelow(init, end)
  {
    if end > 0 {
      var rank := end - 1;
      SortedWithLast(init, last, rank);
      OfWithLast(init, last, rank);
      if Rank(last) < rank {
        NoneHasRank(init, rank);
      }
      LastGoesLast(SortedBelow(init, rank), Of(init, rank), last);
    }
  }

  lemma LastGoesLast(lower: seq<Batch>, own: seq<Batch>, last: Batch)
    ensures lower + (own + [last]) == (lower + own) + [last]
    ensures own == [] ==> (lower + [last]) + own == (lower + own) + [last]
  {
  }

  lemma OfWithLast(init: seq<Batch>, last: Batch, rank: int)
    ensures Of(init + [last], rank) == if Rank(last) == rank then Of(init, rank) + [last] else Of(init, rank)
  {
    assert (init + [last])[..|init|] == init;
    AppendNothing(Of(init, rank));
  }

  lemma {:induction false} SortedIsUnchanged(batches: seq<Batch>)
    requires InOrder(batches)
    ensures Sorted(batches) == batches
  {
    if batches == [] {
      SortedOfNothing(RANKS);
    } else {
      var init, last := batches[..|batches| - 1], batches[|batches| - 1];
      SortedIsUnchanged(init);
      SortedWithLast(init, last, RANKS);
      assert init + [last] == batches;
    }
  }

  lemma {:induction false} SortedOfNothing(end: nat)
    ensures SortedBelow([], end) == []
  {
    if end > 0 {
      SortedOfNothing(end - 1);
    }
  }

  /** Extracting and merging back changes nothing exactly for a settled deployment: sorted and numbered, no empty
      batch, publications first in every batch, and in every epoch the batches with publications first. */
  lemma RemergedIff(batches: seq<Batch>)
    ensures Remerged(batches) == batches <==> Settled(batches)
  {
    if Remerged(batches) == batches {
      RemergedIsSettled(batches);
    }
    if Settled(batches) {
      SettledIsUnchanged(batches);
    }
  }

  lemma SettledIsUnchanged(batches: seq<Batch>)
    requires Settled(batches)
    ensures Remerged(batches) == batches
  {
    SettledIsRestored(batches);
    var merged := MergeAll(PublishOnly(batches), CustomOnly(batches));
    forall rank: int ensures Of(merged, rank) == Of(batches, rank) {
      assert Shaped(Of(batches, rank));
      LeadingEpoch(batches, rank, HasPublishes);
    }
    SortedAlike(merged, batches, RANKS);
    SortedIsUnchanged(batches);
  }

  lemma LeadingEpoch(batches: seq<Batch>, rank: int, has: Batch -> bool)
    requires Leading(Of(batches, rank), has)
    ensures Of(With(batches, has) + Without(batches, has), rank) == Of(batches, rank)
  {
    OfConcat(With(batches, has), Without(batches, has), rank);
    OfWith(batches, rank, has);
    WithThenWithout(Of(batches, rank), has);
  }

  lemma SettledIsRestored(batches: seq<Batch>)
    requires Settled(batches)
    ensures MergeAll(PublishOnly(batches), CustomOnly(batches)) ==
              With(batches, HasPublishes) + Without(batches, HasPublishes)
  {
    forall i | 0 <= i < |batches| ensures PublishesFirst(batches[i]) {
      MemberOfItsRank(batches, i);
      assert Shaped(Of(batches, Rank(batches[i])));
    }
    RestoredSoFar(batches, |batches|);
    assert batches[..|batches|] == batches && batches[|batches|..] == [];
    var with := With(batches, HasPublishes);
    assert with + [] == with;
  }

  lemma {:induction false} MemberOfItsRank(batches: seq<Batch>, i: nat)
    requires i < |batches|
    ensures batches[i] in Of(batches, Rank(batches[i]))
  {
    if i < |batches| - 1 {
      MemberOfItsRank(batches[..|batches| - 1], i);
    }
  }

  // ---------------------------------------------------------------- the deployment

  /** Appends the batches of one epoch. */
  method AppendOf(lower: seq<Batch>, batches: seq<Batch>, rank: nat) returns (more: seq<Batch>)
    ensures more == lower + Of(batches, rank)
  {
    more := lower;
    for k := 0 to |batches|
      invariant more == lower + Of(batches[..k], rank)
    {
      assert batches[..k + 1] == batches[..k] + [batches[k]];
      OfWithLast(batches[..k], batches[k], rank);
      if Rank(batches[k]) == rank {
        more := more + [batches[k]];
      }
    }
    assert batches[..|batches|] == batches;
  }

  class DeploymentSpecification {
    var batches: seq<Batch>

    constructor (batches: seq<Batch>)
      ensures this.batches == batches
    {
      this.batches := batches;
    }

    /** The stable sort of the standard library, then ids by position. */
    method SortBatchesByEpoch()
      modifies this
      ensures batches == Renumbered(Sorted(old(batches)))
      ensures forall i :: 0 <= i < |batches| ==> batches[i].id == i
      ensures forall i, j :: 0 <= i < j < |batches| && batches[i].epoch.Some? ==>
                batches[j].epoch.Some? && batches[i].epoch.value <= batches[j].epoch.value
      ensures forall rank: int :: TransactionsOf(batches, rank) == TransactionsOf(old(batches), rank)
    {
      var sorted: seq<Batch> := [];
      for rank := 0 to RANKS
        invariant sorted == SortedBelow(batches, rank) && unchanged(this)
      {
        sorted := AppendOf(sorted, batches, rank);
      }
      batches := sorted;
      Renumber();
      SortedAndRenumbered(old(batches));
    }

    method Renumber()
      modifies this
      ensures batches == Renumbered(old(batches))
    {
      ghost var sorted := batches;
      for i := 0 to |batches|
        invariant |batches| == |sorted|
        invariant forall k :: 0 <= k < |sorted| ==> batches[k] == if k < i then sorted[k].(id := k) else sorted[k]
      {
        batches := batches[i := batches[i].(id := i)];
      }
    }

    method ExtractNoContractPublishTxs() returns (only: DeploymentSpecification, customs: seq<Batch>)
      ensures fresh(only) && only.batches == PublishOnly(batches) && customs == CustomOnly(batches)
      ensures forall b :: b in only.batches ==> IsLeft(b, batches)
      ensures forall b :: b in customs ==> IsExtracted(b, batches)
      ensures forall rank: int ::
                multiset(TransactionsOf(only.batches, rank)) + multiset(TransactionsOf(customs, rank))
                == multiset(TransactionsOf(batches, rank))
    {
      var kept: seq<Batch> := [];
      customs := [];
      for k := 0 to |batches|
        invariant kept == PublishOnly(batches[..k]) && customs == CustomOnly(batches[..k])
      {
        assert batches[..k + 1][..k] == batches[..k];
        var published, custom := PartitionTransactions(batches[k].transactions);
        if published != [] {
          kept := kept + [batches[k].(transactions := published)];
        }
        if custom != [] {
          customs := customs + [batches[k].(transactions := custom)];
        }
      }
      assert batches[..|batches|] == batches;
      ExtractionKinds(batches);
      EveryEpochIsConserved(batches);
      only := new DeploymentSpecification(kept);
    }

    method MergeBatches(customs: seq<Batch>)
      modifies this
      ensures batches == Merged(old(batches), customs)
      ensures forall i :: 0 <= i < |batches| ==> batches[i].id == i
      ensures forall i, j :: 0 <= i < j < |batches| && batches[i].epoch.Some? ==>
                batches[j].epoch.Some? && batches[i].epoch.value <= batches[j].epoch.value
      ensures forall rank: int ::
                multiset(TransactionsOf(batches, rank)) ==
                multiset(TransactionsOf(old(batches), rank)) + multiset(TransactionsOf(customs, rank))
    {
      for k := 0 to |customs|
        invariant batches == MergeAll(old(batches), customs[..k])
      {
        assert customs[..k + 1][..k] == customs[..k];
        var found := Find(batches, customs[k].id, customs[k].epoch);
        if found.Some? {
          var batch := batches[found.value];
          batches := batches[found.value := batch.(transactions := batch.transactions + customs[k].transactions)];
        } else if customs[k].transactions != [] {
          batches := batches + [customs[k]];
        }
      }
      assert customs[..|customs|] == customs;
      SortBatchesByEpoch();
      forall rank: int
        ensures multiset(TransactionsOf(batches, rank)) ==
                multiset(TransactionsOf(old(batches), rank)) + multiset(TransactionsOf(customs, rank))
      {
        MergeConserves(old(batches), customs, rank);
      }
    }
  }

  method PartitionTransactions(txs: seq<Transaction>) returns (published: seq<Transaction>, custom: seq<Transaction>)
    ensures published == Publishes(txs) && custom == Customs(txs)
    ensures forall tx :: tx in published <==> tx in txs && (tx.ContractPublish? || tx.EmulatedContractPublish?)
    ensures forall tx :: tx in custom <==> tx in txs && !tx.ContractPublish? && !tx.EmulatedContractPublish?
    ensures multiset(published) + multiset(custom) == multiset(txs)
  {
    published, custom := [], [];
    for k := 0 to |txs|
      invariant published == Publishes(txs[..k]) && custom == Customs(txs[..k])
    {
      assert txs[..k + 1][..k] == txs[..k];
      if IsPublish(txs[k]) {
        published := published + [txs[k]];
      } else {
        custom := custom + [txs[k]];
      }
    }
    assert txs[..|txs|] == txs;
    PartitionKinds(txs);
    Partition(txs);
  }
}
