/** Topping devnet accounts up to their configured sBTC. */
module SbtcFunding {
  import opened Common

  /** `sbtc-deposit` rejects anything smaller. */
  const DUST_LIMIT: nat := 546

  datatype Account = Account(address: string, target: nat)

  /** What the identifier of a deposit is computed from. */
  datatype DepositId = DepositId(address: string, target: nat)

  datatype Mint = Mint(nonce: nat, id: DepositId, amount: nat)

  /** The sBTC that addresses hold, and the deposits that `sbtc-deposit` has completed. */
  datatype Ledger = Ledger(balances: map<string, nat>, deposits: set<DepositId>)

  function BalanceIn(ledger: Ledger, address: string): nat {
    if address in ledger.balances then ledger.balances[address] else 0
  }

  function IdOf(account: Account): DepositId {
    DepositId(account.address, account.target)
  }

  /** What the node answers while the accounts are gone through: balances that can be read, and posts it accepts. */
  datatype Node = Node(balances: seq<Option<nat>>, accepts: seq<bool>)

  predicate Answers(node: Node, accounts: seq<Account>) {
    |node.balances| == |accounts| && |node.accepts| == |accounts|
  }

  /** Account `i` has a readable balance, short by no less than the dust limit, and its post is accepted. */
  predicate Funded(accounts: seq<Account>, node: Node, i: nat)
    requires Answers(node, accounts) && i < |accounts|
  {
    && node.balances[i].Some?
    && node.balances[i].value + DUST_LIMIT <= accounts[i].target
    && node.accepts[i]
  }

  /** The mints for the first `n` accounts. */
  function Mints(accounts: seq<Account>, node: Node, nonce: nat, n: nat): seq<Mint>
    requires Answers(node, accounts) && n <= |accounts|
  {
    if n == 0 then []
    else
      var before := Mints(accounts, node, nonce, n - 1);
      if Funded(accounts, node, n - 1)
      then before + [Mint(nonce + |before|, IdOf(accounts[n - 1]),
                          accounts[n - 1].target - node.balances[n - 1].value)]
      else before
  }

  /** Goes through the accounts once; a failed post consumes no nonce. */
  method FundAccounts(accounts: seq<Account>, node: Node, nonce: nat) returns (posted: seq<Mint>, count: nat)
    requires Answers(node, accounts)
    ensures posted == Mints(accounts, node, nonce, |accounts|)
    ensures count == |posted|
  {
    var deployerNonce := nonce;
    posted, count := [], 0;
    for i := 0 to |accounts|
      invariant posted == Mints(accounts, node, nonce, i)
      invariant count == |posted| && deployerNonce == nonce + count
    {
      if node.balances[i].None? {
        continue;
      }
      var held, configured := node.balances[i].value, accounts[i].target;
      if configured <= held {
        continue;
      }
      var shortfall := configured - held;
      if shortfall < DUST_LIMIT {
        continue;
      }
      if node.accepts[i] {
        posted := posted + [Mint(deployerNonce, IdOf(accounts[i]), shortfall)];
        deployerNonce := deployerNonce + 1;
        count := count + 1;
      }
    }
  }

  /** The nonces are consecutive, and no mint is smaller than what the deposit contract takes. */
  lemma {:induction false} NoncesAreConsecutive(accounts: seq<Account>, node: Node, nonce: nat, n: nat, k: nat)
    requires Answers(node, accounts) && n <= |accounts| && k < |Mints(accounts, node, nonce, n)|
    ensures Mints(accounts, node, nonce, n)[k].nonce == nonce + k
    ensures Mints(accounts, node, nonce, n)[k].amount >= DUST_LIMIT
  {
    if k < |Mints(accounts, node, nonce, n - 1)| {
      NoncesAreConsecutive(accounts, node, nonce, n - 1, k);
    }
  }

  /** Whose post the loop makes, and what it says, over the fields. */
  predicate IsToBePosted(account: Account, balance: Option<nat>, accepted: bool) {
    balance.Some? && account.target - balance.value >= 546 && accepted
  }

  predicate IsPostFor(mint: Mint, nonce: nat, account: Account, balance: Option<nat>) {
    balance.Some? && mint == Mint(nonce, DepositId(account.address, account.target), mint.amount)
    && balance.value + mint.amount == account.target
  }

  ghost predicate ArePostsFor(mints: seq<Mint>, nonce: nat, accounts: seq<Account>, node: Node, who: seq<nat>)
    requires Answers(node, accounts)
  {
    && |who| == |mints|
    && forall k :: 0 <= k < |who| ==>
         who[k] < |accounts| && IsPostFor(mints[k], nonce + k, accounts[who[k]], node.balances[who[k]])
  }

  ghost predicate Ascends(who: seq<nat>, end: nat) {
    && (forall k :: 0 <= k < |who| ==> who[k] < end)
    && forall k, l :: 0 <= k < l < |who| ==> who[k] < who[l]
  }

  lemma OnePostMore(mints: seq<Mint>, nonce: nat, accounts: seq<Account>, node: Node, who: seq<nat>, mint: Mint, i: nat)
    requires Answers(node, accounts) && i < |accounts|
    requires ArePostsFor(mints, nonce, accounts, node, who) && Ascends(who, i)
    requires IsPostFor(mint, nonce + |mints|, accounts[i], node.balances[i])
    ensures ArePostsFor(mints + [mint], nonce, accounts, node, who + [i]) && Ascends(who + [i], i + 1)
  {
  }

  /** The posts, one by one: they go to exactly the accounts whose balance could be read and is short of the target by
      546 or more and whose post is accepted, in order, each over what is missing. */
  lemma {:induction false} PostsAre(accounts: seq<Account>, node: Node, nonce: nat, n: nat) returns (who: seq<nat>)
    requires Answers(node, accounts) && n <= |accounts|
    ensures ArePostsFor(Mints(accounts, node, nonce, n), nonce, accounts, node, who) && Ascends(who, n)
    ensures forall i: nat :: i < n ==> (i in who <==> IsToBePosted(accounts[i], node.balances[i], node.accepts[i]))
  {
    if n == 0 {
      return [];
    }
    var before := PostsAre(accounts, node, nonce, n - 1);
    who := before;
    if Funded(accounts, node, n - 1) {
      var mints := Mints(accounts, node, nonce, n - 1);
      var amount := accounts[n - 1].target - node.balances[n - 1].value;
      OnePostMore(mints, nonce, accounts, node, before,
                  Mint(nonce + |mints|, IdOf(accounts[n - 1]), amount), n - 1);
      who := before + [n - 1];
    }
  }

  // ---------------------------------------------------------------- what the accounts hold afterwards

  /** A deposit is completed once; a second one of the same identifier is rejected. */
  function SettleOne(ledger: Ledger, mint: Mint): Ledger {
    if mint.id in ledger.deposits then ledger
    else Ledger(ledger.balances[mint.id.address := BalanceIn(ledger, mint.id.address) + mint.amount],
                ledger.deposits + {mint.id})
  }

  function Settle(ledger: Ledger, mints: seq<Mint>): Ledger {
    if mints == [] then ledger else SettleOne(Settle(ledger, mints[..|mints| - 1]), mints[|mints| - 1])
  }

  /** What could be read is what the ledger holds. */
  ghost predicate ReadsFrom(node: Node, accounts: seq<Account>, ledger: Ledger) {
    && Answers(node, accounts)
    && forall i :: 0 <= i < |accounts| && node.balances[i].Some? ==>
         node.balances[i].value == BalanceIn(ledger, accounts[i].address)
  }

  /** The ledger when the mints for the first `n` accounts have settled. */
  function After(accounts: seq<Account>, node: Node, nonce: nat, ledger: Ledger, n: nat): Ledger
    requires Answers(node, accounts) && n <= |accounts|
  {
    Settle(ledger, Mints(accounts, node, nonce, n))
  }

  lemma AfterOneMore(accounts: seq<Account>, node: Node, nonce: nat, ledger: Ledger, n: nat)
    requires ReadsFrom(node, accounts, ledger) && n < |accounts|
    ensures var before, after := After(accounts, node, nonce, ledger, n), After(accounts, node, nonce, ledger, n + 1);
            var id := IdOf(accounts[n]);
            if !Funded(accounts, node, n) || id in before.deposits then after == before
            else
              && after.deposits == before.deposits + {id}
              && after.balances == before.balances[id.address :=
                   BalanceIn(before, id.address) + (id.target - BalanceIn(ledger, id.address))]
  {
    var before := Mints(accounts, node, nonce, n);
    if Funded(accounts, node, n) {
      var mints := Mints(accounts, node, nonce, n + 1);
      assert mints[..|mints| - 1] == before;
    }
  }

  /** The post for account `i` is accepted, and its deposit was not completed before. */
  predicate Fresh(accounts: seq<Account>, node: Node, ledger: Ledger, i: nat)
    requires Answers(node, accounts) && i < |accounts|
  {
    Funded(accounts, node, i) && IdOf(accounts[i]) !in ledger.deposits
  }

  /** What is missing to an account's target. */
  function Shortfall(accounts: seq<Account>, ledger: Ledger, i: nat): int
    requires i < |accounts|
  {
    accounts[i].target - BalanceIn(ledger, accounts[i].address)
  }

  /** Exactly the deposits of the funded accounts are completed. */
  lemma {:induction false} DepositsAfter(accounts: seq<Account>, node: Node, nonce: nat, ledger: Ledger, n: nat,
      id: DepositId)
    requires ReadsFrom(node, accounts, ledger) && n <= |accounts|
    ensures id in After(accounts, node, nonce, ledger, n).deposits <==>
            id in ledger.deposits || exists j :: 0 <= j < n && Funded(accounts, node, j) && IdOf(accounts[j]) == id
  {
    if n > 0 {
      DepositsAfter(accounts, node, nonce, ledger, n - 1, id);
      AfterOneMore(accounts, node, nonce, ledger, n - 1);
      DepositIsCompleted(accounts, node, nonce, ledger, n - 1);
    }
  }

  lemma DepositIsCompleted(accounts: seq<Account>, node: Node, nonce: nat, ledger: Ledger, n: nat)
    requires Answers(node, accounts) && n < |accounts|
    ensures var before, after := After(accounts, node, nonce, ledger, n), After(accounts, node, nonce, ledger, n + 1);
            after.deposits == before.deposits + if Funded(accounts, node, n) then {IdOf(accounts[n])} else {}
  {
    if Funded(accounts, node, n) {
      var mints := Mints(accounts, node, nonce, n + 1);
      assert mints[..|mints| - 1] == Mints(accounts, node, nonce, n);
    }
  }

  /** Where all fresh entries of an address have one target, that target is what it ends with, or else what it had. */
  lemma {:induction false} OneTarget(accounts: seq<Account>, node: Node, nonce: nat, ledger: Ledger, n: nat,
      address: string, target: nat)
    requires ReadsFrom(node, accounts, ledger) && n <= |accounts|
    requires forall j :: 0 <= j < n && Fresh(accounts, node, ledger, j) && accounts[j].address == address ==>
               accounts[j].target == target
    ensures BalanceIn(After(accounts, node, nonce, ledger, n), address) ==
            if exists j :: 0 <= j < n && Fresh(accounts, node, ledger, j) && accounts[j].address == address
            then target else BalanceIn(ledger, address)
  {
    if n > 0 {
      OneTarget(accounts, node, nonce, ledger, n - 1, address, target);
      AfterOneMore(accounts, node, nonce, ledger, n - 1);
      DepositsAfter(accounts, node, nonce, ledger, n - 1, IdOf(accounts[n - 1]));
    }
  }

  /** Each fresh entry of an address adds its shortfall, or an equal one did. */
  lemma {:induction false} AtLeast(accounts: seq<Account>, node: Node, nonce: nat, ledger: Ledger, n: nat, i: nat)
    requires ReadsFrom(node, accounts, ledger) && i < n <= |accounts| && Fresh(accounts, node, ledger, i)
    ensures BalanceIn(After(accounts, node, nonce, ledger, n), accounts[i].address) >= accounts[i].target
    decreases n
  {
    AfterOneMore(accounts, node, nonce, ledger, n - 1);
    if i < n - 1 {
      AtLeast(accounts, node, nonce, ledger, n - 1, i);
    } else {
      NeverLess(accounts, node, nonce, ledger, i, accounts[i].address);
      DepositsAfter(accounts, node, nonce, ledger, i, IdOf(accounts[i]));
      if IdOf(accounts[i]) in After(accounts, node, nonce, ledger, i).deposits {
        var j :| 0 <= j < i && Funded(accounts, node, j) && IdOf(accounts[j]) == IdOf(accounts[i]);
        AtLeast(accounts, node, nonce, ledger, i, j);
      }
    }
  }

  lemma {:induction false} NeverLess(accounts: seq<Account>, node: Node, nonce: nat, ledger: Ledger, n: nat,
      address: string)
    requires ReadsFrom(node, accounts, ledger) && n <= |accounts|
    ensures BalanceIn(After(accounts, node, nonce, ledger, n), address) >= BalanceIn(ledger, address)
  {
    if n > 0 {
      NeverLess(accounts, node, nonce, ledger, n - 1, address);
      AfterOneMore(accounts, node, nonce, ledger, n - 1);
    }
  }

  /** Two fresh entries of an address with two targets add both shortfalls. */
  lemma {:induction false} AtLeastBoth(accounts: seq<Account>, node: Node, nonce: nat, ledger: Ledger, n: nat, i: nat,
      j: nat)
    requires ReadsFrom(node, accounts, ledger) && i < n <= |accounts| && j < n
    requires Fresh(accounts, node, ledger, i) && Fresh(accounts, node, ledger, j)
    requires accounts[i].address == accounts[j].address && accounts[i].target != accounts[j].target
    ensures BalanceIn(After(accounts, node, nonce, ledger, n), accounts[i].address) >=
            accounts[i].target + Shortfall(accounts, ledger, j)
    decreases n
  {
    AfterOneMore(accounts, node, nonce, ledger, n - 1);
    if i < n - 1 && j < n - 1 {
      AtLeastBoth(accounts, node, nonce, ledger, n - 1, i, j);
    } else {
      var last, other := n - 1, if i == n - 1 then j else i;
      AtLeast(accounts, node, nonce, ledger, last, other);
      DepositsAfter(accounts, node, nonce, ledger, last, IdOf(accounts[last]));
      if IdOf(accounts[last]) in After(accounts, node, nonce, ledger, last).deposits {
        var k :| 0 <= k < last && Funded(accounts, node, k) && IdOf(accounts[k]) == IdOf(accounts[last]);
        if i == last {
          AtLeastBoth(accounts, node, nonce, ledger, last, k, j);
        } else {
          AtLeastBoth(accounts, node, nonce, ledger, last, i, k);
        }
      }
    }
  }

  /** A freshly funded account ends with its target exactly when no other fresh entry has its address and another
      target; otherwise it ends with more. */
  lemma EndsAtTargetIff(accounts: seq<Account>, node: Node, nonce: nat, ledger: Ledger, i: nat)
    requires ReadsFrom(node, accounts, ledger) && i < |accounts| && Fresh(accounts, node, ledger, i)
    ensures BalanceIn(After(accounts, node, nonce, ledger, |accounts|), accounts[i].address) >= accounts[i].target
    ensures BalanceIn(After(accounts, node, nonce, ledger, |accounts|), accounts[i].address) == accounts[i].target <==>
            forall j ::
              0 <= j < |accounts| && Fresh(accounts, node, ledger, j) && accounts[j].address == accounts[i].address ==>
                accounts[j].target == accounts[i].target
  {
    AtLeast(accounts, node, nonce, ledger, |accounts|, i);
    if j :| 0 <= j < |accounts| && Fresh(accounts, node, ledger, j) && accounts[j].address == accounts[i].address
            && accounts[j].target != accounts[i].target
    {
      AtLeastBoth(accounts, node, nonce, ledger, |accounts|, i, j);
    } else {
      OneTarget(accounts, node, nonce, ledger, |accounts|, accounts[i].address, accounts[i].target);
    }
  }

  /** The shortfalls of an address's fresh entries, those of one target once. */
  function Added(accounts: seq<Account>, node: Node, ledger: Ledger, n: nat, address: string): int
    requires Answers(node, accounts) && n <= |accounts|
  {
    if n == 0 then 0
    else
      Added(accounts, node, ledger, n - 1, address)
      + if IsFirst(accounts, node, ledger, n - 1) && accounts[n - 1].address == address
        then Shortfall(accounts, ledger, n - 1) else 0
  }

  /** A fresh entry, and no earlier one has its address and target. */
  predicate IsFirst(accounts: seq<Account>, node: Node, ledger: Ledger, i: nat)
    requires Answers(node, accounts) && i < |accounts|
  {
    Fresh(accounts, node, ledger, i) &&
    forall j :: 0 <= j < i && Fresh(accounts, node, ledger, j) ==> IdOf(accounts[j]) != IdOf(accounts[i])
  }

  /** Once the posts have settled, an address holds what it held and the shortfalls of its distinct fresh targets. */
  lemma {:induction false} EndsWithSum(accounts: seq<Account>, node: Node, nonce: nat, ledger: Ledger, n: nat,
      address: string)
    requires ReadsFrom(node, accounts, ledger) && n <= |accounts|
    ensures BalanceIn(After(accounts, node, nonce, ledger, n), address) ==
            BalanceIn(ledger, address) + Added(accounts, node, ledger, n, address)
  {
    if n > 0 {
      EndsWithSum(accounts, node, nonce, ledger, n - 1, address);
      AfterOneMore(accounts, node, nonce, ledger, n - 1);
      IsFirstIff(accounts, node, nonce, ledger, n - 1);
    }
  }

  lemma IsFirstIff(accounts: seq<Account>, node: Node, nonce: nat, ledger: Ledger, n: nat)
    requires ReadsFrom(node, accounts, ledger) && n < |accounts|
    ensures IsFirst(accounts, node, ledger, n) <==>
            Funded(accounts, node, n) && IdOf(accounts[n]) !in After(accounts, node, nonce, ledger, n).deposits
  {
    DepositsAfter(accounts, node, nonce, ledger, n, IdOf(accounts[n]));
    if j :| 0 <= j < n && Funded(accounts, node, j) && IdOf(accounts[j]) == IdOf(accounts[n]) {
      assert Fresh(accounts, node, ledger, j) || IdOf(accounts[n]) in ledger.deposits;
    }
  }

  /** An address without fresh entry keeps what it held: nothing is minted to an account at or near its target, to one
      that could not be read, or to one whose deposit was completed before, even if it has been spent since. */
  lemma OthersKeepTheirs(accounts: seq<Account>, node: Node, nonce: nat, ledger: Ledger, address: string)
    requires ReadsFrom(node, accounts, ledger)
    requires forall j :: 0 <= j < |accounts| && accounts[j].address == address ==> !Fresh(accounts, node, ledger, j)
    ensures BalanceIn(After(accounts, node, nonce, ledger, |accounts|), address) == BalanceIn(ledger, address)
  {
    OneTarget(accounts, node, nonce, ledger, |accounts|, address, 0);
  }

  /** A funded account is funded again by a second run, once the posts have settled, only if its deposit had been
      completed before the first one. */
  lemma FundedOnce(accounts: seq<Account>, node: Node, nonce: nat, ledger: Ledger, again: Node, i: nat)
    requires ReadsFrom(node, accounts, ledger) && i < |accounts| && Funded(accounts, node, i)
    requires ReadsFrom(again, accounts, After(accounts, node, nonce, ledger, |accounts|))
    ensures Funded(accounts, again, i) ==> IdOf(accounts[i]) in ledger.deposits
  {
    if IdOf(accounts[i]) !in ledger.deposits {
      AtLeast(accounts, node, nonce, ledger, |accounts|, i);
    }
  }

  /** An address that is listed with two targets gets both shortfalls. */
  lemma TwiceListedIsOverfunded(address: string)
    ensures var accounts, node := [Account(address, 600), Account(address, 700)],
              Node([Some(0), Some(0)], [true, true]);
            var ledger := Ledger(map[], {});
            ReadsFrom(node, accounts, ledger) && BalanceIn(After(accounts, node, 0, ledger, 2), address) == 1300
  {
    var accounts, node := [Account(address, 600), Account(address, 700)], Node([Some(0), Some(0)], [true, true]);
    var ledger := Ledger(map[], {});
    EndsWithSum(accounts, node, 0, ledger, 2, address);
    assert IsFirst(accounts, node, ledger, 0) && IsFirst(accounts, node, ledger, 1);
    assert Added(accounts, node, ledger, 1, address) == 600;
  }
}
