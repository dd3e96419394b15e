/** When the devnet posts its stacking orders. */
module Stacking {
  import opened Common

  const LIMIT32: int := 0x1_0000_0000
  const LIMIT64: int := 0x1_0000_0000_0000_0000

  type U32 = x: int | 0 <= x < 0x1_0000_0000
  type U64 = x: int | 0 <= x < 0x1_0000_0000_0000_0000

  datatype Order = Order(startAtCycle: U32, duration: U32, wallet: string, slots: U64, autoExtend: Option<bool>)

  datatype PoxInfo = PoxInfo(contractId: string, firstBurnHeight: U32, cycleLength: U32, minThreshold: U64)

  datatype Account = Account(name: string, address: string)

  /** `checked`: an arithmetic overflow ends the program, as in a debug build; otherwise it wraps around. */
  datatype Setup = Setup(orders: seq<Order>, accounts: seq<Account>, signerKeys: seq<string>, checked: bool)

  datatype Tx = Tx(order: nat, account: Account, cycle: U32, extend: bool, amount: U64, duration: U32,
      signerKey: string)

  // ---------------------------------------------------------------- machine arithmetic

  /** No value: the program ends. */
  function Sub32(x: U32, y: U32, checked: bool): Option<U32> {
    if x >= y then Some(x - y) else if checked then None else Some(x - y + LIMIT32)
  }

  function Add32(x: U32, y: U32, checked: bool): Option<U32> {
    if x + y < LIMIT32 then Some(x + y) else if checked then None else Some(x + y - LIMIT32)
  }

  function Mul64(x: U64, y: U64, checked: bool): Option<U64> {
    if x * y < LIMIT64 then Some(x * y) else if checked then None else Some((x * y) % LIMIT64)
  }

  function SaturatingSub(x: U32, y: U32): U32 {
    if x >= y then x - y else 0
  }

  /** A release build counts modulo 2^32 and 2^64; a checked one gives the same where nothing overflows. */
  lemma WrapsAround(x: U32, y: U32, a: U64, b: U64)
    ensures Sub32(x, y, false) == Some((x - y) % 0x1_0000_0000) && Add32(x, y, false) == Some((x + y) % 0x1_0000_0000)
    ensures Mul64(a, b, false) == Some((a * b) % 0x1_0000_0000_0000_0000)
    ensures Sub32(x, y, true) == if x - y < 0 then None else Some(x - y)
    ensures Add32(x, y, true) == if x + y >= 0x1_0000_0000 then None else Some(x + y)
    ensures Mul64(a, b, true) == if a * b >= 0x1_0000_0000_0000_0000 then None else Some(a * b)
  {
    assert a * b >= 0;
  }

  // ---------------------------------------------------------------- one order, one cycle

  function ShouldPublish(cycle: U32, order: Order, checked: bool): Option<bool> {
    match Sub32(order.startAtCycle, 1, checked)
    case None => None
    case Some(first) =>
      if cycle < first then Some(false)
      else match Add32(cycle, order.duration, checked)
           case None => None
           case Some(sum) =>
             if order.duration == 0 then None
             else Some(SaturatingSub(sum, order.startAtCycle) % order.duration == order.duration - 1)
  }

  /** The cycle before the start, or some whole number of durations after it. */
  ghost predicate Scheduled(order: Order, cycle: int) {
    exists k: nat :: IsTurn(order, k, cycle)
  }

  predicate IsTurn(order: Order, k: nat, cycle: int) {
    cycle == order.startAtCycle - 1 + k * order.duration
  }

  /** The start is not cycle 0, the duration is not 0, and no sum overflows up to the given cycle. */
  predicate InRange(order: Order, cycle: U32) {
    order.startAtCycle >= 1 && order.duration >= 1 && cycle + order.duration < LIMIT32
  }

  lemma AtLeastOnce(k: int, d: int)
    requires k >= 1 && d >= 0
    ensures k * d >= d
  {
    assert k * d == (k - 1) * d + d;
  }

  lemma SameQuotient(p: int, s: int, q: int, r: int, d: int)
    requires 0 <= s < d && 0 <= r < d && p * d + s == q * d + r
    ensures p == q && s == r
  {
    assert (p - q) * d == r - s;
    if p > q {
      AtLeastOnce(p - q, d);
    } else if q > p {
      assert (q - p) * d == s - r;
      AtLeastOnce(q - p, d);
    }
  }

  lemma QuotientIs(n: nat, q: int, r: nat, d: nat)
    requires r < d && n == q * d + r
    ensures n / d == q && n % d == r
  {
    assert n == (n / d) * d + n % d;
    SameQuotient(n / d, n % d, q, r, d);
  }

  lemma ShiftedRemainder(n: nat, d: nat)
    requires d > 0
    ensures (n + (d - 1)) % d == d - 1 <==> n % d == 0
  {
    var q, r := n / d, n % d;
    assert n == q * d + r;
    if r == 0 {
      QuotientIs(n + (d - 1), q, d - 1, d);
    } else {
      assert (q + 1) * d == q * d + d;
      QuotientIs(n + (d - 1), q + 1, r - 1, d);
    }
  }

  /** A cycle that is not before the start's is scheduled when it is whole durations away from it. */
  lemma ScheduledIff(order: Order, cycle: int)
    requires order.duration >= 1
    ensures Scheduled(order, cycle)
       <==> cycle >= order.startAtCycle - 1 && (cycle - (order.startAtCycle - 1)) % order.duration == 0
  {
    var n, d := cycle - (order.startAtCycle - 1), order.duration;
    if n >= 0 && n % d == 0 {
      assert IsTurn(order, n / d, cycle);
    }
    if k: nat :| IsTurn(order, k, cycle) {
      if k >= 1 {
        AtLeastOnce(k, d);
      }
      QuotientIs(n, k, 0, d);
    }
  }

  /** In range, both builds publish at the scheduled cycles and at no other. */
  lemma PublishesOnSchedule(cycle: U32, order: Order, checked: bool)
    requires InRange(order, cycle)
    ensures ShouldPublish(cycle, order, checked) == Some(Scheduled(order, cycle))
  {
    ScheduledIff(order, cycle);
    if cycle >= order.startAtCycle - 1 {
      ShiftedRemainder(cycle - (order.startAtCycle - 1), order.duration);
    }
  }

  /** A checked build gives an answer exactly when nothing overflows, and then the answer is the schedule's. */
  lemma CheckedBuildAnswersIff(cycle: U32, order: Order)
    ensures ShouldPublish(cycle, order, true).Some?
       <==> order.startAtCycle >= 1 && (cycle < order.startAtCycle - 1 || InRange(order, cycle))
    ensures ShouldPublish(cycle, order, true).Some?
        ==> ShouldPublish(cycle, order, true).value == Scheduled(order, cycle)
  {
    if order.startAtCycle >= 1 {
      if cycle < order.startAtCycle - 1 {
        forall k: nat ensures !IsTurn(order, k, cycle) {
          assert k * order.duration >= 0;
        }
      } else if InRange(order, cycle) {
        PublishesOnSchedule(cycle, order, true);
      }
    }
  }

  // ---------------------------------------------------------------- all orders, one block

  /** The first account of that name (its label). */
  function Find(accounts: seq<Account>, name: string): Option<Account> {
    if accounts == [] then None
    else if accounts[0].name == name then Some(accounts[0])
    else Find(accounts[1..], name)
  }

  /** No account before this one has the name. */
  ghost predicate IsFirstNamed(accounts: seq<Account>, name: string, account: Account) {
    exists k :: && 0 <= k < |accounts| && accounts[k] == account && account.name == name
                && forall j :: 0 <= j < k ==> accounts[j].name != name
  }

  lemma {:induction false} FindIsFirst(accounts: seq<Account>, name: string)
    ensures Find(accounts, name).None? <==> forall k :: 0 <= k < |accounts| ==> accounts[k].name != name
    ensures Find(accounts, name).Some? ==> IsFirstNamed(accounts, name, Find(accounts, name).value)
  {
    if accounts != [] && accounts[0].name != name {
      FindIsFirst(accounts[1..], name);
      var found := Find(accounts[1..], name);
      if found.Some? {
        var k :| && 0 <= k < |accounts[1..]| && accounts[1..][k] == found.value
                 && forall j :: 0 <= j < k ==> accounts[1..][j].name != name;
        assert accounts[k + 1] == found.value;
        assert forall j :: 0 < j < k + 1 ==> accounts[j] == accounts[1..][j - 1];
      }
    }
  }

  datatype Decision = Skip | Abort | Post(tx: Tx)

  function Decide(setup: Setup, i: nat, info: PoxInfo, cycle: U32, transitioned: bool): Decision
    requires i < |setup.orders|
  {
    var order := setup.orders[i];
    var due := if transitioned then Some(true) else ShouldPublish(cycle, order, setup.checked);
    if due == None then Abort
    else if due == Some(false) then Skip
    else
      var extend := !transitioned && Some(cycle) != Sub32(order.startAtCycle, 1, setup.checked);
      if extend && order.autoExtend != Some(true) then Skip
      else match Find(setup.accounts, order.wallet)
           case None => Skip
           case Some(account) =>
             match Mul64(info.minThreshold, order.slots, setup.checked)
             case None => Abort
             case Some(amount) =>
               if setup.signerKeys == [] then Abort
               else Post(Tx(i, account, cycle, extend, amount, order.duration,
                            setup.signerKeys[i % |setup.signerKeys|]))
  }

  /** What the first `n` orders post; no value if one of them ends the program. */
  function DecideAll(setup: Setup, n: nat, info: PoxInfo, cycle: U32, transitioned: bool): Option<seq<Tx>>
    requires n <= |setup.orders|
  {
    if n == 0 then Some([])
    else match DecideAll(setup, n - 1, info, cycle, transitioned)
         case None => None
         case Some(before) => Carried(before, Decide(setup, n - 1, info, cycle, transitioned))
  }

  function Carried(before: seq<Tx>, decision: Decision): Option<seq<Tx>> {
    match decision
    case Skip => Some(before)
    case Abort => None
    case Post(tx) => Some(before + [tx])
  }

  predicate Transitioned(last: string, info: PoxInfo) {
    last != "" && last != info.contractId
  }

  function CycleAt(info: PoxInfo, height: U32): U32
    requires info.cycleLength > 0
  {
    SaturatingSub(height, info.firstBurnHeight) / info.cycleLength
  }

  predicate AtTrigger(info: PoxInfo, height: U32)
    requires info.cycleLength > 0
  {
    SaturatingSub(height, info.firstBurnHeight) % info.cycleLength == 10
  }

  /** What one block makes the coordinator post, when it last saw the contract `last`. */
  function Publish(setup: Setup, last: string, info: Option<PoxInfo>, height: U32): Option<seq<Tx>> {
    match info
    case None => Some([])
    case Some(pox) =>
      if pox.cycleLength == 0 then None
      else if !Transitioned(last, pox) && !AtTrigger(pox, height) then Some([])
      else DecideAll(setup, |setup.orders|, pox, CycleAt(pox, height), Transitioned(last, pox))
  }

  function Remember(last: string, info: Option<PoxInfo>): string {
    if info.Some? then info.value.contractId else last
  }

  class Coordinator {
    const setup: Setup
    var lastPoxContract: string
    var posted: seq<Tx>

    constructor (setup: Setup)
      ensures this.setup == setup && lastPoxContract == "" && posted == []
    {
      this.setup := setup;
      lastPoxContract := "";
      posted := [];
    }

    /** Answers the number of transactions, unless there is none. `alive` tells that the program did not end. */
    method PublishStackingOrders(info: Option<PoxInfo>, height: U32) returns (count: Option<nat>, alive: bool)
      modifies this
      ensures alive == Publish(setup, old(lastPoxContract), info, height).Some?
      ensures alive ==> lastPoxContract == Remember(old(lastPoxContract), info)
      ensures alive ==> var txs := Publish(setup, old(lastPoxContract), info, height).value;
                        posted == old(posted) + txs && count == (if txs == [] then None else Some(|txs|))
    {
      if info.None? {
        return None, true;
      }
      var pox := info.value;
      if pox.cycleLength == 0 {
        return None, false;
      }
      var transitioned := lastPoxContract != "" && lastPoxContract != pox.contractId;
      lastPoxContract := pox.contractId;
      if !transitioned && !AtTrigger(pox, height) {
        return None, true;
      }
      var cycle := CycleAt(pox, height);
      var transactions: nat := 0;
      ghost var before := posted;
      for i := 0 to |setup.orders|
        invariant DecideAll(setup, i, pox, cycle, transitioned).Some?
        invariant posted == before + DecideAll(setup, i, pox, cycle, transitioned).value
        invariant transactions == |DecideAll(setup, i, pox, cycle, transitioned).value|
        invariant lastPoxContract == pox.contractId
      {
        match Decide(setup, i, pox, cycle, transitioned) {
          case Skip =>
          case Abort =>
            AbortEndsAll(setup, i + 1, |setup.orders|, pox, cycle, transitioned);
            return None, false;
          case Post(tx) =>
            transactions := transactions + 1;
            posted := posted + [tx];
        }
      }
      count := if transactions > 0 then Some(transactions) else None;
      alive := true;
    }
  }

  lemma {:induction false} AbortEndsAll(setup: Setup, m: nat, n: nat, info: PoxInfo, cycle: U32, transitioned: bool)
    requires m <= n <= |setup.orders| && DecideAll(setup, m, info, cycle, transitioned).None?
    ensures DecideAll(setup, n, info, cycle, transitioned).None?
  {
    if m < n {
      AbortEndsAll(setup, m, n - 1, info, cycle, transitioned);
    }
  }

  // ---------------------------------------------------------------- what one block posts for one order

  function Matching(txs: seq<Tx>, has: Tx -> bool): nat {
    if txs == [] then 0
    else Matching(txs[..|txs| - 1], has) + if has(txs[|txs| - 1]) then 1 else 0
  }

  lemma {:induction false} MatchingConcat(a: seq<Tx>, b: seq<Tx>, has: Tx -> bool)
    ensures Matching(a + b, has) == Matching(a, has) + Matching(b, has)
  {
    if b == [] {
      assert a + b == a;
    } else {
      var init := b[..|b| - 1];
      assert (a + b)[..|a + b| - 1] == a + init;
      MatchingConcat(a, init, has);
    }
  }

  /** Among the transactions of one block, the ones of an order are the order's own decision. */
  lemma {:induction false} OneDecisionEach(setup: Setup, n: nat, info: PoxInfo, cycle: U32, transitioned: bool, i: nat,
      has: Tx -> bool)
    requires n <= |setup.orders| && i < |setup.orders| && DecideAll(setup, n, info, cycle, transitioned).Some?
    requires forall tx: Tx :: has(tx) ==> tx.order == i
    ensures var decision := Decide(setup, i, info, cycle, transitioned);
            Matching(DecideAll(setup, n, info, cycle, transitioned).value, has)
            == if i < n && decision.Post? && has(decision.tx) then 1 else 0
  {
    if n > 0 {
      OneDecisionEach(setup, n - 1, info, cycle, transitioned, i, has);
      CarriedMatches(DecideAll(setup, n - 1, info, cycle, transitioned).value,
                     Decide(setup, n - 1, info, cycle, transitioned), n - 1, i, has);
    }
  }

  lemma CarriedMatches(before: seq<Tx>, decision: Decision, n: nat, i: nat, has: Tx -> bool)
    requires Carried(before, decision).Some?
    requires decision.Post? ==> decision.tx.order == n
    requires forall tx: Tx :: has(tx) ==> tx.order == i
    ensures Matching(Carried(before, decision).value, has)
         == Matching(before, has) + if i == n && decision.Post? && has(decision.tx) then 1 else 0
  {
    if decision.Post? {
      MatchingConcat(before, [decision.tx], has);
    }
  }

  ghost predicate IsDecided(setup: Setup, tx: Tx, info: PoxInfo, cycle: U32, transitioned: bool) {
    tx.order < |setup.orders| && Decide(setup, tx.order, info, cycle, transitioned) == Post(tx)
  }

  ghost predicate Ascend(txs: seq<Tx>, n: nat) {
    && (forall k :: 0 <= k < |txs| ==> txs[k].order < n)
    && forall k, l :: 0 <= k < l < |txs| ==> txs[k].order < txs[l].order
  }

  lemma DecisionHasItsOrder(setup: Setup, i: nat, info: PoxInfo, cycle: U32, transitioned: bool)
    requires i < |setup.orders|
    ensures var decision := Decide(setup, i, info, cycle, transitioned);
            decision.Post? ==> decision.tx.order == i && IsDecided(setup, decision.tx, info, cycle, transitioned)
  {
  }

  lemma CarriedAscends(txs: seq<Tx>, decision: Decision, n: nat)
    requires Ascend(txs, n) && (decision.Post? ==> decision.tx.order == n)
    ensures Carried(txs, decision).Some? ==> Ascend(Carried(txs, decision).value, n + 1)
    ensures Carried(txs, decision).Some? ==>
              forall tx :: tx in Carried(txs, decision).value ==> tx in txs || (decision.Post? && tx == decision.tx)
  {
  }

  lemma {:induction false} AllAreDecided(setup: Setup, n: nat, info: PoxInfo, cycle: U32, transitioned: bool)
    requires n <= |setup.orders| && DecideAll(setup, n, info, cycle, transitioned).Some?
    ensures Ascend(DecideAll(setup, n, info, cycle, transitioned).value, n)
    ensures forall tx :: tx in DecideAll(setup, n, info, cycle, transitioned).value ==>
              IsDecided(setup, tx, info, cycle, transitioned)
  {
    if n > 0 {
      AllAreDecided(setup, n - 1, info, cycle, transitioned);
      DecisionHasItsOrder(setup, n - 1, info, cycle, transitioned);
      CarriedAscends(DecideAll(setup, n - 1, info, cycle, transitioned).value,
                     Decide(setup, n - 1, info, cycle, transitioned), n - 1);
    }
  }

  /** What a transaction says: its order's duration, the minimum times the order's slots, the first account of the
      order's name, and the signer's key whose place is the order's, counted round the list of keys. */
  ghost predicate SaysItsOrder(setup: Setup, info: PoxInfo, tx: Tx) {
    && tx.order < |setup.orders| && setup.signerKeys != []
    && var order := setup.orders[tx.order];
       && tx.duration == order.duration
       && tx.amount == (info.minThreshold * order.slots) % 0x1_0000_0000_0000_0000
       && IsFirstNamed(setup.accounts, order.wallet, tx.account)
       && tx.signerKey == setup.signerKeys[tx.order % |setup.signerKeys|]
  }

  lemma DecisionSaysItsOrder(setup: Setup, tx: Tx, info: PoxInfo, cycle: U32, transitioned: bool)
    requires IsDecided(setup, tx, info, cycle, transitioned)
    ensures SaysItsOrder(setup, info, tx) && tx.cycle == cycle
    ensures tx.extend ==> !transitioned && setup.orders[tx.order].autoExtend == Some(true)
  {
    FindIsFirst(setup.accounts, setup.orders[tx.order].wallet);
    WrapsAround(0, 0, info.minThreshold, setup.orders[tx.order].slots);
  }

  /** The cycle of a block, and its place in it, as positions since the first block. */
  lemma CycleOfBlock(info: PoxInfo, height: U32)
    requires info.cycleLength > 0
    ensures height >= info.firstBurnHeight ==>
              && CycleAt(info, height) == (height - info.firstBurnHeight) / info.cycleLength
              && (AtTrigger(info, height) <==> (height - info.firstBurnHeight) % info.cycleLength == 10)
    ensures height < info.firstBurnHeight ==> CycleAt(info, height) == 0 && !AtTrigger(info, height)
  {
  }

  /** Every transaction that a block makes the coordinator post says its order and the block's cycle; the orders ascend,
      so none posts twice; and without a change of contract the block triggers, and only then a transaction extends. */
  lemma BlockPosts(setup: Setup, last: string, info: PoxInfo, height: U32)
    requires Publish(setup, last, Some(info), height).Some?
    ensures info.cycleLength > 0
    ensures var txs := Publish(setup, last, Some(info), height).value;
            && (txs != [] && (last == "" || last == info.contractId) ==> AtTrigger(info, height))
            && (forall tx :: tx in txs ==> SaysItsOrder(setup, info, tx) && tx.cycle == CycleAt(info, height))
            && (forall tx :: tx in txs && tx.extend ==>
                  (last == "" || last == info.contractId) && setup.orders[tx.order].autoExtend == Some(true))
            && Ascend(txs, |setup.orders|)
  {
    var txs := Publish(setup, last, Some(info), height).value;
    var changed, cycle := Transitioned(last, info), CycleAt(info, height);
    if changed || AtTrigger(info, height) {
      AllAreDecided(setup, |setup.orders|, info, cycle, changed);
      forall tx | tx in txs
        ensures SaysItsOrder(setup, info, tx) && tx.cycle == cycle
        ensures tx.extend ==> !changed && setup.orders[tx.order].autoExtend == Some(true)
      {
        DecisionSaysItsOrder(setup, tx, info, cycle, changed);
      }
    }
  }

  predicate Fits(setup: Setup, order: Order, info: PoxInfo) {
    info.minThreshold * order.slots < LIMIT64 && setup.signerKeys != []
  }

  /** The wallet is known, and this is the first turn or the order extends itself. */
  predicate Stackable(setup: Setup, order: Order, cycle: int) {
    && Find(setup.accounts, order.wallet).Some?
    && (cycle == order.startAtCycle - 1 || order.autoExtend == Some(true))
  }

  /** Without a change of contract an order posts in its scheduled cycles: the first time as a fresh stack, later, if
      it extends itself, as an extension. */
  lemma DecisionOnSchedule(setup: Setup, i: nat, info: PoxInfo, cycle: U32)
    requires i < |setup.orders|
    requires InRange(setup.orders[i], cycle) && Fits(setup, setup.orders[i], info)
    ensures var order, decision := setup.orders[i], Decide(setup, i, info, cycle, false);
            && (decision.Post? <==> Scheduled(order, cycle) && Stackable(setup, order, cycle))
            && !decision.Abort?
            && (decision.Post? ==>
                  && decision.tx.order == i && decision.tx.cycle == cycle && decision.tx.duration == order.duration
                  && decision.tx.amount == info.minThreshold * order.slots
                  && Some(decision.tx.account) == Find(setup.accounts, order.wallet)
                  && (decision.tx.extend <==> cycle != order.startAtCycle - 1))
  {
    PublishesOnSchedule(cycle, setup.orders[i], setup.checked);
  }

  /** When the contract changed, every order with a known wallet is stacked anew, wherever the cycle stands. */
  lemma TransitionRestacksAll(setup: Setup, last: string, info: PoxInfo, height: U32, i: nat)
    requires info.cycleLength > 0 && Transitioned(last, info) && i < |setup.orders|
    requires Publish(setup, last, Some(info), height).Some?
    ensures var txs := Publish(setup, last, Some(info), height).value;
            && Matching(txs, (tx: Tx) => tx.order == i)
               == (if Find(setup.accounts, setup.orders[i].wallet).Some? then 1 else 0)
            && Matching(txs, (tx: Tx) => tx.order == i && tx.extend) == 0
  {
    var cycle := CycleAt(info, height);
    OneDecisionEach(setup, |setup.orders|, info, cycle, true, i, (tx: Tx) => tx.order == i);
    OneDecisionEach(setup, |setup.orders|, info, cycle, true, i, (tx: Tx) => tx.order == i && tx.extend);
    if Decide(setup, i, info, cycle, true).Abort? {
      AbortEndsAll(setup, i + 1, |setup.orders|, info, cycle, true);
    }
  }

  /** An order is stacked anew even before its first cycle. */
  lemma TransitionStacksEarly()
    ensures var order := Order(100, 12, "w", 1, None);
            var setup := Setup([order], [Account("w", "a")], ["k"], true);
            Publish(setup, "pox-4", Some(PoxInfo("pox-5", 0, 20, 1)), 103)
            == Some([Tx(0, Account("w", "a"), 5, false, 1, 12, "k")]) && !Scheduled(order, 5)
  {
    var order := Order(100, 12, "w", 1, None);
    var setup := Setup([order], [Account("w", "a")], ["k"], true);
    var info := PoxInfo("pox-5", 0, 20, 1);
    assert Find(setup.accounts, "w") == Some(setup.accounts[0]);
    assert CycleAt(info, 103) == 5;
    assert DecideAll(setup, 0, info, 5, true) == Some([]);
    assert Decide(setup, 0, info, 5, true) == Post(Tx(0, Account("w", "a"), 5, false, 1, 12, "k"));
    assert DecideAll(setup, 1, info, 5, true) == Some([] + [Tx(0, Account("w", "a"), 5, false, 1, 12, "k")]);
    assert |setup.orders| == 1 && Transitioned("pox-4", info);
    assert Publish(setup, "pox-4", Some(info), 103) == DecideAll(setup, 1, info, 5, true);
    assert [] + [Tx(0, Account("w", "a"), 5, false, 1, 12, "k")] == [Tx(0, Account("w", "a"), 5, false, 1, 12, "k")];
    ScheduledIff(order, 5);
    assert !Scheduled(order, 5);
  }

  // ---------------------------------------------------------------- runs over consecutive blocks

  function LastSeen(last: string, infos: seq<Option<PoxInfo>>): string {
    if infos == [] then last
    else Remember(LastSeen(last, infos[..|infos| - 1]), infos[|infos| - 1])
  }

  /** What is remembered is the contract of the last block that could be read, if any. */
  lemma {:induction false} LastSeenIs(last: string, infos: seq<Option<PoxInfo>>, k: int)
    requires -1 <= k < |infos| && (k >= 0 ==> infos[k].Some?) && forall j :: k < j < |infos| ==> infos[j].None?
    ensures LastSeen(last, infos) == if k >= 0 then infos[k].value.contractId else last
  {
    if k < |infos| - 1 {
      LastSeenIs(last, infos[..|infos| - 1], k);
    }
  }

  /** All that consecutive blocks from height `start` on make the coordinator post. */
  function RunBlocks(setup: Setup, last: string, infos: seq<Option<PoxInfo>>, start: nat): Option<seq<Tx>>
    requires start + |infos| <= LIMIT32
  {
    if infos == [] then Some([])
    else
      var init := infos[..|infos| - 1];
      match RunBlocks(setup, last, init, start)
      case None => None
      case Some(before) =>
        match Publish(setup, LastSeen(last, init), infos[|infos| - 1], start + |infos| - 1)
        case None => None
        case Some(txs) => Some(before + txs)
  }

  /** The calls of the coordinator for consecutive blocks. */
  method Follow(setup: Setup, infos: seq<Option<PoxInfo>>, start: nat) returns (r: Option<seq<Tx>>)
    requires start + |infos| <= LIMIT32
    ensures r == RunBlocks(setup, "", infos, start)
  {
    var coordinator := new Coordinator(setup);
    for j := 0 to |infos|
      invariant coordinator.setup == setup
      invariant coordinator.lastPoxContract == LastSeen("", infos[..j])
      invariant RunBlocks(setup, "", infos[..j], start) == Some(coordinator.posted)
    {
      assert infos[..j + 1][..j] == infos[..j];
      var _, alive := coordinator.PublishStackingOrders(infos[j], start + j);
      if !alive {
        DeadRunStaysDead(setup, "", infos, start, j + 1);
        return None;
      }
    }
    assert infos[..|infos|] == infos;
    r := Some(coordinator.posted);
  }

  lemma {:induction false} DeadRunStaysDead(setup: Setup, last: string, infos: seq<Option<PoxInfo>>, start: nat, j: nat)
    requires start + |infos| <= LIMIT32 && j <= |infos| && RunBlocks(setup, last, infos[..j], start).None?
    ensures RunBlocks(setup, last, infos, start).None?
    decreases |infos|
  {
    if j == |infos| {
      assert infos[..j] == infos;
    } else {
      var init := infos[..|infos| - 1];
      assert init[..j] == infos[..j];
      DeadRunStaysDead(setup, last, init, start, j);
    }
  }

  /** Every block that could be read reports the same `pox`, and so did the last one read before. */
  ghost predicate Steady(last: string, infos: seq<Option<PoxInfo>>, pox: PoxInfo) {
    && (last == "" || last == pox.contractId)
    && forall j :: 0 <= j < |infos| ==> infos[j] == None || infos[j] == Some(pox)
  }

  lemma {:induction false} SteadyContract(last: string, infos: seq<Option<PoxInfo>>, pox: PoxInfo)
    requires Steady(last, infos, pox)
    ensures !Transitioned(LastSeen(last, infos), pox)
  {
    if infos != [] {
      SteadyContract(last, infos[..|infos| - 1], pox);
    }
  }

  ghost predicate AllInRange(setup: Setup, pox: PoxInfo, cycle: U32) {
    forall i :: 0 <= i < |setup.orders| ==> InRange(setup.orders[i], cycle) && Fits(setup, setup.orders[i], pox)
  }

  /** The blocks of the run stay where no sum overflows. */
  ghost predicate BlocksInRange(setup: Setup, pox: PoxInfo, start: nat, n: nat)
    requires start + n <= LIMIT32 && pox.cycleLength > 0
  {
    forall h: U32 :: start <= h < start + n ==> AllInRange(setup, pox, CycleAt(pox, h))
  }

  lemma {:induction false} NoneAborts(setup: Setup, n: nat, pox: PoxInfo, cycle: U32)
    requires n <= |setup.orders| && AllInRange(setup, pox, cycle)
    ensures DecideAll(setup, n, pox, cycle, false).Some?
    ensures forall tx :: tx in DecideAll(setup, n, pox, cycle, false).value ==> OnSchedule(setup, tx)
  {
    if n > 0 {
      NoneAborts(setup, n - 1, pox, cycle);
      DecisionOnSchedule(setup, n - 1, pox, cycle);
    }
  }

  ghost predicate OnSchedule(setup: Setup, tx: Tx) {
    && tx.order < |setup.orders|
    && var order := setup.orders[tx.order];
       && Scheduled(order, tx.cycle) && tx.duration == order.duration
       && (tx.extend <==> tx.cycle != order.startAtCycle - 1)
  }

  /** Position 10 of cycle `c`, if the cycle is that long. */
  predicate TriggerOf(pox: PoxInfo, c: int, height: int) {
    pox.cycleLength > 10 && height == pox.firstBurnHeight + c * pox.cycleLength + 10
  }

  lemma NotNegative(c: nat, len: nat)
    ensures c * len >= 0
  {
  }

  lemma PositionIff(h: nat, len: nat, c: nat)
    requires len > 0
    ensures h / len == c && h % len == 10 <==> len > 10 && h == c * len + 10
  {
    var q, r := h / len, h % len;
    assert h == q * len + r;
    if len > 10 && h == c * len + 10 {
      QuotientIs(h, c, 10, len);
    }
  }

  lemma TriggersOncePerCycle(pox: PoxInfo, c: U32, height: U32)
    requires pox.cycleLength > 0
    ensures AtTrigger(pox, height) && CycleAt(pox, height) == c <==> TriggerOf(pox, c, height)
  {
    PositionIff(SaturatingSub(height, pox.firstBurnHeight), pox.cycleLength, c);
    NotNegative(c, pox.cycleLength);
  }

  /** Order `i` posts for cycle `c`. */
  function For(i: nat, c: int): Tx -> bool {
    (tx: Tx) => tx.order == i && tx.cycle == c
  }

  ghost predicate Due(setup: Setup, i: nat, c: int)
    requires i < |setup.orders|
  {
    Scheduled(setup.orders[i], c) && Stackable(setup, setup.orders[i], c)
  }

  lemma OneBlock(setup: Setup, last: string, pox: PoxInfo, height: U32, i: nat, c: U32)
    requires i < |setup.orders| && pox.cycleLength > 0 && !Transitioned(last, pox)
    requires AllInRange(setup, pox, CycleAt(pox, height))
    ensures var r := Publish(setup, last, Some(pox), height);
            && r.Some?
            && (forall tx :: tx in r.value ==> OnSchedule(setup, tx))
            && Matching(r.value, For(i, c)) == if Due(setup, i, c) && TriggerOf(pox, c, height) then 1 else 0
  {
    var cycle := CycleAt(pox, height);
    TriggersOncePerCycle(pox, c, height);
    if AtTrigger(pox, height) {
      NoneAborts(setup, |setup.orders|, pox, cycle);
      OneDecisionEach(setup, |setup.orders|, pox, cycle, false, i, For(i, c));
      DecisionOnSchedule(setup, i, pox, cycle);
    }
  }

  /** The trigger of cycle `c` falls on a block of the run whose state could be read. */
  ghost predicate TriggerSeen(pox: PoxInfo, infos: seq<Option<PoxInfo>>, start: nat, c: int) {
    exists j :: 0 <= j < |infos| && infos[j].Some? && TriggerOf(pox, c, start + j)
  }

  lemma TriggerSeenUnfold(pox: PoxInfo, infos: seq<Option<PoxInfo>>, start: nat, c: int)
    requires infos != []
    ensures var n := |infos| - 1;
            var atLast := infos[n].Some? && TriggerOf(pox, c, start + n);
            && (TriggerSeen(pox, infos, start, c) <==> TriggerSeen(pox, infos[..n], start, c) || atLast)
            && !(TriggerSeen(pox, infos[..n], start, c) && atLast)
  {
    var n := |infos| - 1;
    var init := infos[..n];
    if j :| 0 <= j < |infos| && infos[j].Some? && TriggerOf(pox, c, start + j) {
      if j < n {
        assert init[j] == infos[j];
      }
    }
    if j :| 0 <= j < |init| && init[j].Some? && TriggerOf(pox, c, start + j) {
      assert infos[j] == init[j];
    }
  }

  /** While the contract stays the same, no run of blocks ends the program, and an order posts once for each cycle in
      which it is due and whose trigger was seen, and never else. */
  lemma {:induction false} SteadyRunPostsOnSchedule(
    setup: Setup, last: string, infos: seq<Option<PoxInfo>>, start: nat, pox: PoxInfo, i: nat, c: U32)
    requires start + |infos| <= LIMIT32 && pox.cycleLength > 0 && i < |setup.orders|
    requires Steady(last, infos, pox) && BlocksInRange(setup, pox, start, |infos|)
    ensures var r := RunBlocks(setup, last, infos, start);
            && r.Some?
            && (forall tx :: tx in r.value ==> OnSchedule(setup, tx))
            && Matching(r.value, For(i, c)) == if Due(setup, i, c) && TriggerSeen(pox, infos, start, c) then 1 else 0
    decreases |infos|
  {
    if infos != [] {
      var n := |infos| - 1;
      var init := infos[..n];
      SteadyRunPostsOnSchedule(setup, last, init, start, pox, i, c);
      TriggerSeenUnfold(pox, infos, start, c);
      LastBlock(setup, last, infos, start, pox, i, c);
      MatchingConcat(RunBlocks(setup, last, init, start).value,
                     Publish(setup, LastSeen(last, init), infos[n], start + n).value, For(i, c));
    }
  }

  lemma LastBlock(
    setup: Setup, last: string, infos: seq<Option<PoxInfo>>, start: nat, pox: PoxInfo, i: nat, c: U32)
    requires infos != [] && start + |infos| <= LIMIT32 && pox.cycleLength > 0 && i < |setup.orders|
    requires Steady(last, infos, pox) && BlocksInRange(setup, pox, start, |infos|)
    ensures var n := |infos| - 1;
            var r := Publish(setup, LastSeen(last, infos[..n]), infos[n], start + n);
            && r.Some?
            && (forall tx :: tx in r.value ==> OnSchedule(setup, tx))
            && Matching(r.value, For(i, c))
               == if Due(setup, i, c) && infos[n].Some? && TriggerOf(pox, c, start + n) then 1 else 0
  {
    var n := |infos| - 1;
    SteadyContract(last, infos[..n], pox);
    if infos[n].Some? {
      OneBlock(setup, LastSeen(last, infos[..n]), pox, start + n, i, c);
    }
  }

  // ---------------------------------------------------------------- the stacked cycles

  /** A transaction locks the cycles after its own, as many as its duration says. */
  predicate Locks(tx: Tx, x: int) {
    tx.cycle + 1 <= x <= tx.cycle + tx.duration
  }

  /** The cycle whose transaction locks cycle `x`. */
  function LockedFrom(order: Order, x: int): int
    requires order.duration >= 1
  {
    var first := order.startAtCycle;
    first - 1 + ((x - first) / order.duration) * order.duration
  }

  /** The locks of the scheduled cycles tile all cycles from the start on. */
  lemma LocksTile(order: Order, x: int, c: int)
    requires order.duration >= 1
    ensures Scheduled(order, c) && c + 1 <= x <= c + order.duration
       <==> x >= order.startAtCycle && c == LockedFrom(order, x)
  {
    var n, d := x - order.startAtCycle, order.duration;
    assert n == (n / d) * d + n % d;
    if x >= order.startAtCycle && c == LockedFrom(order, x) {
      assert IsTurn(order, n / d, c);
    }
    if Scheduled(order, c) && c + 1 <= x <= c + d {
      var k: nat :| IsTurn(order, k, c);
      assert k * d >= 0;
      QuotientIs(n, k, n - k * d, d);
    }
  }

  lemma {:induction false} MatchingAlike(txs: seq<Tx>, f: Tx -> bool, g: Tx -> bool)
    requires forall tx :: tx in txs ==> f(tx) == g(tx)
    ensures Matching(txs, f) == Matching(txs, g)
  {
    if txs != [] {
      MatchingAlike(txs[..|txs| - 1], f, g);
    }
  }

  /** The schedule is to lock this cycle: one of the first duration, or a later one if the order extends itself. */
  predicate ToBeLocked(setup: Setup, order: Order, x: int) {
    && Find(setup.accounts, order.wallet).Some? && x >= order.startAtCycle
    && (x < order.startAtCycle + order.duration || order.autoExtend == Some(true))
  }

  lemma FirstTurnIff(order: Order, x: int)
    requires order.duration >= 1 && x >= order.startAtCycle
    ensures LockedFrom(order, x) == order.startAtCycle - 1 <==> x < order.startAtCycle + order.duration
  {
    NoTurnIff(x - order.startAtCycle, order.duration);
  }

  lemma NoTurnIff(n: nat, d: nat)
    requires d >= 1
    ensures (n / d) * d == 0 <==> n < d
  {
    var q, r := n / d, n % d;
    assert n == q * d + r;
    if q >= 1 {
      AtLeastOnce(q, d);
    }
  }

  /** An order locks every cycle of its first duration exactly once, anew, and if it extends itself every later one
      exactly once by extension, as long as the triggers are seen; any other cycle it never locks. */
  lemma EachCycleIsLockedOnce(
    setup: Setup, last: string, infos: seq<Option<PoxInfo>>, start: nat, pox: PoxInfo, i: nat, x: nat)
    requires start + |infos| <= LIMIT32 && pox.cycleLength > 0 && i < |setup.orders| && setup.orders[i].duration >= 1
    requires Steady(last, infos, pox) && BlocksInRange(setup, pox, start, |infos|)
    requires 1 <= setup.orders[i].startAtCycle && x < LIMIT32
    ensures var r, order := RunBlocks(setup, last, infos, start), setup.orders[i];
            && r.Some?
            && Matching(r.value, (tx: Tx) => tx.order == i && Locks(tx, x))
               == (if ToBeLocked(setup, order, x) && TriggerSeen(pox, infos, start, LockedFrom(order, x)) then 1 else 0)
            && (forall tx :: tx in r.value && tx.order == i && Locks(tx, x)
                  ==> (tx.extend <==> x >= order.startAtCycle + order.duration))
  {
    var order := setup.orders[i];
    var locks := (tx: Tx) => tx.order == i && Locks(tx, x);
    var n, d := x - order.startAtCycle, order.duration;
    assert n == (n / d) * d + n % d;
    var c: U32 := 0;
    if x >= order.startAtCycle {
      LockedFromIsACycle(order, x);
      c := LockedFrom(order, x);
      LocksTile(order, x, c);
      FirstTurnIff(order, x);
    }
    SteadyRunPostsOnSchedule(setup, last, infos, start, pox, i, c);
    var txs := RunBlocks(setup, last, infos, start).value;
    forall tx | tx in txs && tx.order == i
      ensures Locks(tx, x) <==> x >= order.startAtCycle && tx.cycle == c
      ensures Locks(tx, x) ==> (tx.extend <==> x >= order.startAtCycle + order.duration)
    {
      assert OnSchedule(setup, tx);
      LocksTile(order, x, tx.cycle);
      if Locks(tx, x) && tx.extend {
        var k: nat :| IsTurn(order, k, tx.cycle);
        if k >= 1 {
          AtLeastOnce(k, d);
        }
      }
    }
    if x >= order.startAtCycle {
      MatchingAlike(txs, locks, For(i, c));
    } else {
      NoneMatches(txs, locks);
    }
  }

  lemma LockedFromIsACycle(order: Order, x: nat)
    requires order.duration >= 1 && 1 <= order.startAtCycle <= x
    ensures 0 <= LockedFrom(order, x) < x
  {
    WholeTurns(x - order.startAtCycle, order.duration);
  }

  lemma WholeTurns(n: nat, d: nat)
    requires d > 0
    ensures 0 <= (n / d) * d <= n
  {
    var q, r := n / d, n % d;
    assert n == q * d + r;
    NotNegative(q, d);
  }

  lemma {:induction false} NoneMatches(txs: seq<Tx>, f: Tx -> bool)
    requires forall tx :: tx in txs ==> !f(tx)
    ensures Matching(txs, f) == 0
  {
    if txs != [] {
      NoneMatches(txs[..|txs| - 1], f);
    }
  }

  // ---------------------------------------------------------------- a change of contract

  lemma {:induction false} LastSeenConcat(last: string, a: seq<Option<PoxInfo>>, b: seq<Option<PoxInfo>>)
    ensures LastSeen(last, a + b) == LastSeen(LastSeen(last, a), b)
  {
    if b == [] {
      AppendNothing(a);
    } else {
      InitOfConcat(a, b);
      LastSeenConcat(last, a, b[..|b| - 1]);
    }
  }

  /** A run goes on from what it has remembered. */
  lemma {:induction false} RunConcat(setup: Setup, last: string, a: seq<Option<PoxInfo>>, b: seq<Option<PoxInfo>>,
      start: nat)
    requires start + |a| + |b| <= LIMIT32 && RunBlocks(setup, last, a, start).Some?
    ensures var r := RunBlocks(setup, LastSeen(last, a), b, start + |a|);
            RunBlocks(setup, last, a + b, start)
            == if r.None? then None else Some(RunBlocks(setup, last, a, start).value + r.value)
  {
    var before := RunBlocks(setup, last, a, start).value;
    if b == [] {
      AppendNothing(a);
      AppendNothing(before);
    } else {
      var init := b[..|b| - 1];
      InitOfConcat(a, b);
      RunConcat(setup, last, a, init, start);
      LastSeenConcat(last, a, init);
      var r := RunBlocks(setup, LastSeen(last, a), init, start + |a|);
      var txs := Publish(setup, LastSeen(last, a + init), b[|b| - 1], start + |a| + |init|);
      if r.Some? && txs.Some? {
        Assoc(before, r.value, txs.value);
      }
    }
  }

  lemma {:induction false} ChangeAbortsNone(setup: Setup, n: nat, pox: PoxInfo, cycle: U32)
    requires n <= |setup.orders| && forall k :: 0 <= k < n ==> Fits(setup, setup.orders[k], pox)
    ensures DecideAll(setup, n, pox, cycle, true).Some?
  {
    if n > 0 {
      ChangeAbortsNone(setup, n - 1, pox, cycle);
    }
  }

  /** The block at which the contract changes. */
  lemma ChangeBlock(setup: Setup, last: string, pox: PoxInfo, height: U32, i: nat, x: nat)
    requires i < |setup.orders| && pox.cycleLength > 0 && Transitioned(last, pox)
    requires AllInRange(setup, pox, CycleAt(pox, height)) && Find(setup.accounts, setup.orders[i].wallet).Some?
    ensures var r, c := Publish(setup, last, Some(pox), height), CycleAt(pox, height);
            && r.Some?
            && Matching(r.value, (tx: Tx) => tx.order == i && Locks(tx, x))
               == if c + 1 <= x <= c + setup.orders[i].duration then 1 else 0
  {
    var c := CycleAt(pox, height);
    ChangeAbortsNone(setup, |setup.orders|, pox, c);
    OneDecisionEach(setup, |setup.orders|, pox, c, true, i, (tx: Tx) => tx.order == i && Locks(tx, x));
  }

  /** From the block on at which the contract changes, an order with a known wallet locks a cycle once for the fresh
      stack of that block, if that reaches it, and once more on schedule, if the schedule is to lock it and the
      trigger is seen later: cycles that both reach are locked twice. */
  lemma LocksAcrossChange(
    setup: Setup, last: string, before: seq<Option<PoxInfo>>, pox: PoxInfo, later: seq<Option<PoxInfo>>, start: nat,
        i: nat, x: nat)
    requires start + |before| + 1 + |later| <= LIMIT32 && RunBlocks(setup, last, before, start).Some?
    requires pox.cycleLength > 0 && Transitioned(LastSeen(last, before), pox) && Steady(pox.contractId, later, pox)
    requires i < |setup.orders| && BlocksInRange(setup, pox, start + |before|, 1 + |later|) && x < LIMIT32
    requires Find(setup.accounts, setup.orders[i].wallet).Some?
    requires setup.orders[i].duration >= 1 && setup.orders[i].startAtCycle >= 1
    ensures var r := RunBlocks(setup, last, before + ([Some(pox)] + later), start);
            var posted, c, order := |RunBlocks(setup, last, before, start).value|, CycleAt(pox, start + |before|),
                setup.orders[i];
            && r.Some? && posted <= |r.value|
            && Matching(r.value[posted..], (tx: Tx) => tx.order == i && Locks(tx, x))
               == (if c + 1 <= x <= c + order.duration then 1 else 0)
                + (if ToBeLocked(setup, order, x) &&
                    TriggerSeen(pox, later, start + |before| + 1, LockedFrom(order, x)) then 1 else 0)
  {
    var height, seen := start + |before|, LastSeen(last, before);
    var locks := (tx: Tx) => tx.order == i && Locks(tx, x);
    var first, rest := Publish(setup, seen, Some(pox), height), RunBlocks(setup, pox.contractId, later, height + 1);
    ChangeBlock(setup, seen, pox, height, i, x);
    EachCycleIsLockedOnce(setup, pox.contractId, later, height + 1, pox, i, x);
    OneBlockRun(setup, seen, Some(pox), height);
    RunConcat(setup, seen, [Some(pox)], later, height);
    RunConcat(setup, last, before, [Some(pox)] + later, start);
    MatchingConcat(first.value, rest.value, locks);
    var posted := RunBlocks(setup, last, before, start).value;
    assert (posted + (first.value + rest.value))[|posted|..] == first.value + rest.value;
  }

  lemma OneBlockRun(setup: Setup, last: string, info: Option<PoxInfo>, start: U32)
    ensures RunBlocks(setup, last, [info], start) == Publish(setup, last, info, start)
    ensures LastSeen(last, [info]) == Remember(last, info)
  {
    assert [info][..0] == [];
    assert RunBlocks(setup, last, [info][..0], start) == Some([]);
    if Publish(setup, last, info, start).Some? {
      AppendNothing(Publish(setup, last, info, start).value);
    }
  }
}
