/** Guarantees of the contract over whole runs, measured against the actions of the run itself. */
module VaultRuns {
  import opened Base
  import opened TokenLedger
  import opened VaultModel
  import opened VaultInvariants

  /** The state before action `k` of a run. */
  function At(s: State, acts: seq<Action>, k: nat): State
    requires k <= |acts|
  {
    Run(s, acts[..k])
  }

  lemma AtNext(s: State, acts: seq<Action>, k: nat)
    requires k < |acts|
    ensures At(s, acts, k + 1) == Step(At(s, acts, k), acts[k]).0
  {
    assert acts[..k + 1][..k] == acts[..k];
  }

  lemma {:induction false} SelfIsFixed(s: State, acts: seq<Action>)
    ensures Run(s, acts).self == s.self
  {
    if acts != [] {
      SelfIsFixed(s, acts[..|acts| - 1]);
    }
  }

  // ------------------------------------------------------------------ what the run itself says

  /** What action `a`, taken in state `s`, puts into vault `id`. */
  function Contribution(s: State, a: Action, id: nat): int {
    if a.Invoke? && a.call.CreateVault? && Step(s, a).1 == Ok(VaultId(id)) then a.call.deposit
    else if a.Invoke? && a.call.Deposit? && a.call.id == id && Step(s, a).1.Ok? then a.call.amount
    else 0
  }

  /** Everything ever put into vault `id` during a run. */
  function DepositedInto(s: State, acts: seq<Action>, id: nat): int {
    if acts == [] then 0
    else
      var before := acts[..|acts| - 1];
      DepositedInto(s, before, id) + Contribution(Run(s, before), acts[|acts| - 1], id)
  }

  /** Action `j` of the run created vault `id` for `who`. */
  ghost predicate CreatedAt(s: State, acts: seq<Action>, j: nat, id: nat, who: Address) {
    && j < |acts| && acts[j].Invoke? && acts[j].call.CreateVault?
    && acts[j].call.owner == who
    && Step(At(s, acts, j), acts[j]).1 == Ok(VaultId(id))
  }

  /** Action `k` moves tokens out of the contract. */
  ghost predicate PaysOut(s: State, acts: seq<Action>, k: nat) {
    k < |acts| && Bal(At(s, acts, k + 1).ledger, s.self) < Bal(At(s, acts, k).ledger, s.self)
  }

  /** What `o` receives from others minus what `o` sends to others in one action outside the contract. */
  function NetOf(s: State, a: Action, o: Address): int {
    if a.Transfer? && Step(s, a).1.Ok?
    then (if a.to == o then a.amount else 0) - (if a.from == o then a.amount else 0)
    else 0
  }

  function NetTransfers(s: State, acts: seq<Action>, o: Address): int {
    if acts == [] then 0
    else
      var before := acts[..|acts| - 1];
      NetTransfers(s, before, o) + NetOf(Run(s, before), acts[|acts| - 1], o)
  }

  // ------------------------------------------------------------------ conservation over runs

  lemma StepConserves(s: State, a: Action, o: Address)
    requires Inv(s) && o != s.self
    ensures var s' := Step(s, a).0;
      && Surplus(s') == Surplus(s) + NetOf(s, a, s.self) && NetOf(s, a, s.self) >= 0
      && Wealth(s', o) == Wealth(s, o) + NetOf(s, a, o)
  {
    if a.Invoke? {
      CallConserves(s, a.call, a.signers, o);
    }
  }

  /**
    * Solvency, exactly: the contract holds its vault balances, what it held at deployment and what was sent
    * to it directly. And an owner's wallet plus vaults moves only by transfers outside the contract.
    */
  lemma {:induction false} RunConserves(s: State, acts: seq<Action>, o: Address)
    requires Initial(s) && o != s.self
    ensures var e := Run(s, acts);
      && Bal(e.ledger, s.self) ==
           Locked(e.vaults, NextIdOf(e), None) + Bal(s.ledger, s.self) + NetTransfers(s, acts, s.self)
      && NetTransfers(s, acts, s.self) >= 0
      && Wealth(e, o) == Bal(s.ledger, o) + NetTransfers(s, acts, o)
  {
    SelfIsFixed(s, acts);
    if acts != [] {
      var before := acts[..|acts| - 1];
      RunConserves(s, before, o);
      RunKeepsInv(s, before);
      SelfIsFixed(s, before);
      StepConserves(Run(s, before), acts[|acts| - 1], o);
    }
  }

  // ------------------------------------------------------------------ a vault through a run

  /** Once created a vault stays, keeps its identity, only moves its unlock forward, and is spent at most once. */
  lemma {:induction false} VaultPersists(s: State, acts: seq<Action>, j: nat, k: nat, id: nat)
    requires Initial(s) && j <= k <= |acts| && id in At(s, acts, j).vaults
    ensures id in At(s, acts, k).vaults
    ensures var v, w := At(s, acts, j).vaults[id], At(s, acts, k).vaults[id];
      && w.owner == v.owner && w.created == v.created && w.vaultId == id
      && v.unlock <= w.unlock
      && (v.withdrawn ==> w == v)
    decreases k - j
  {
    RunKeepsInv(s, acts[..j]);
    if j < k {
      AtNext(s, acts, j);
      VaultOnlyChangesByOwner(At(s, acts, j), acts[j], id);
      VaultPersists(s, acts, j + 1, k, id);
    }
  }

  /** Nobody but the owner can change a vault, over any stretch of a run the owner signs nothing in. */
  lemma {:induction false} OthersCannotTouch(s: State, acts: seq<Action>, j: nat, k: nat, id: nat)
    requires Initial(s) && j <= k <= |acts| && id in At(s, acts, j).vaults
    requires forall i :: j <= i < k && acts[i].Invoke? ==> At(s, acts, j).vaults[id].owner !in acts[i].signers
    ensures id in At(s, acts, k).vaults && At(s, acts, k).vaults[id] == At(s, acts, j).vaults[id]
    decreases k - j
  {
    RunKeepsInv(s, acts[..j]);
    if j < k {
      AtNext(s, acts, j);
      VaultOnlyChangesByOwner(At(s, acts, j), acts[j], id);
      OthersCannotTouch(s, acts, j + 1, k, id);
    }
  }

  lemma {:induction false} ContributionsStayInside(s: State, acts: seq<Action>, id: nat)
    requires Initial(s) && id !in Run(s, acts).vaults
    ensures DepositedInto(s, acts, id) == 0
  {
    if acts != [] {
      var before, a := acts[..|acts| - 1], acts[|acts| - 1];
      RunKeepsInv(s, before);
      if id in Run(s, before).vaults {
        VaultOnlyChangesByOwner(Run(s, before), a, id);
      }
      ContributionsStayInside(s, before, id);
    }
  }

  /** One step moves a vault's balance by its contribution, or to zero when it is paid out. */
  lemma StepMovesBalance(s: State, a: Action, id: nat)
    requires NextIdOf(s) !in s.vaults && id in Step(s, a).0.vaults
    requires id in s.vaults ==>
      s.vaults[id].balance >= 0 && (s.vaults[id].withdrawn <==> s.vaults[id].balance == 0)
    ensures var v', given := Step(s, a).0.vaults[id], Contribution(s, a, id);
      && (id !in s.vaults ==> given > 0 && v'.balance == given && !v'.withdrawn)
      && (id in s.vaults ==>
            && given >= 0
            && v'.balance == (if v'.withdrawn then 0 else s.vaults[id].balance + given)
            && (s.vaults[id].withdrawn ==> v'.withdrawn)
            && (v'.withdrawn ==> given == 0))
  {
    if a.Invoke? {
      match a.call {
        case Init(t) =>
        case CreateVault(w, n, d, u) => assert id in s.vaults ==> id != NextIdOf(s);
        case Deposit(w, i, amount) =>
        case ExtendLock(w, i, secs) =>
        case Withdraw(w, i) =>
      }
    }
  }

  /** The stored balance is what the run put in, until it is paid out; then it is zero. */
  lemma {:induction false} BalanceIsDeposits(s: State, acts: seq<Action>, id: nat)
    requires Initial(s) && id in Run(s, acts).vaults
    ensures var v := Run(s, acts).vaults[id];
      && DepositedInto(s, acts, id) > 0
      && v.balance == if v.withdrawn then 0 else DepositedInto(s, acts, id)
  {
    if acts != [] {
      var before, a := acts[..|acts| - 1], acts[|acts| - 1];
      RunKeepsInv(s, before);
      assert NextIdOf(Run(s, before)) !in Run(s, before).vaults;
      StepMovesBalance(Run(s, before), a, id);
      if id in Run(s, before).vaults {
        BalanceIsDeposits(s, before, id);
      } else {
        ContributionsStayInside(s, before, id);
      }
    }
  }

  /** A vault that was not there before a step was created by it. */
  lemma NewVaultIsCreated(s: State, a: Action, id: nat)
    requires id !in s.vaults && id in Step(s, a).0.vaults
    ensures a.Invoke? && a.call.CreateVault? && Step(s, a).1 == Ok(VaultId(id))
    ensures Step(s, a).0.vaults[id].owner == a.call.owner
    ensures Step(s, a).0.vaults[id].created < Step(s, a).0.vaults[id].unlock
  {
    assert a.Invoke?;
    match a.call {
      case Init(t) =>
      case CreateVault(w, n, d, u) =>
      case Deposit(w, i, amount) =>
      case ExtendLock(w, i, secs) =>
      case Withdraw(w, i) =>
    }
  }

  lemma {:induction false} EveryVaultWasCreated(s: State, acts: seq<Action>, id: nat) returns (j: nat)
    requires Initial(s) && id in Run(s, acts).vaults
    ensures CreatedAt(s, acts, j, id, Run(s, acts).vaults[id].owner)
  {
    var before, a := acts[..|acts| - 1], acts[|acts| - 1];
    RunKeepsInv(s, before);
    if id in Run(s, before).vaults {
      j := EveryVaultWasCreated(s, before, id);
      assert acts[..j] == before[..j];
      VaultOnlyChangesByOwner(Run(s, before), a, id);
    } else {
      j := |acts| - 1;
      NewVaultIsCreated(Run(s, before), a, id);
    }
  }

  /** Every vault ever unlocks later than it was created. */
  lemma {:induction false} UnlocksAfterCreation(s: State, acts: seq<Action>, id: nat)
    requires Initial(s) && id in Run(s, acts).vaults
    ensures Run(s, acts).vaults[id].created < Run(s, acts).vaults[id].unlock
  {
    var before, a := acts[..|acts| - 1], acts[|acts| - 1];
    RunKeepsInv(s, before);
    if id in Run(s, before).vaults {
      UnlocksAfterCreation(s, before, id);
      VaultOnlyChangesByOwner(Run(s, before), a, id);
    } else {
      NewVaultIsCreated(Run(s, before), a, id);
    }
  }

  // ------------------------------------------------------------------ the time lock

  /** A step that lowers the contract's balance is a successful withdrawal of that whole vault. */
  lemma PayoutIsWithdrawal(s: State, a: Action)
    requires Inv(s)
    requires Bal(Step(s, a).0.ledger, s.self) < Bal(s.ledger, s.self)
    ensures a.Invoke? && a.call.Withdraw?
    ensures var s', id, who := Step(s, a).0, a.call.id, a.call.caller;
      && id in s.vaults && s.vaults[id].owner == who && !s.vaults[id].withdrawn
      && s.vaults[id].unlock <= s.now
      && Step(s, a).1 == Ok(Paid(s.vaults[id].balance))
      && Bal(s.ledger, s.self) - Bal(s'.ledger, s.self) == s.vaults[id].balance
      && Bal(s'.ledger, who) - Bal(s.ledger, who) == s.vaults[id].balance
      && id in s'.vaults && s'.vaults[id].withdrawn
  {
  }

  /**
    * The time lock. Every payment out of the contract is a withdrawal of one vault by the address that created
    * it, pays that address everything ever put into the vault, and happens no earlier than every unlock time
    * the vault has had so far in the run.
    */
  lemma TimeLock(s: State, acts: seq<Action>, k: nat)
    requires Initial(s) && PaysOut(s, acts, k)
    ensures acts[k].Invoke? && acts[k].call.Withdraw?
    ensures var id, who, amount :=
              acts[k].call.id, acts[k].call.caller, DepositedInto(s, acts[..k], acts[k].call.id);
      && (exists j :: CreatedAt(s, acts, j, id, who))
      && Bal(At(s, acts, k).ledger, s.self) - Bal(At(s, acts, k + 1).ledger, s.self) == amount
      && Bal(At(s, acts, k + 1).ledger, who) - Bal(At(s, acts, k).ledger, who) == amount
      && (forall j :: 0 <= j <= k && id in At(s, acts, j).vaults ==>
            At(s, acts, j).vaults[id].unlock <= At(s, acts, k).now)
  {
    var e := At(s, acts, k);
    RunKeepsInv(s, acts[..k]);
    SelfIsFixed(s, acts[..k]);
    AtNext(s, acts, k);
    PayoutIsWithdrawal(e, acts[k]);
    var id := acts[k].call.id;
    BalanceIsDeposits(s, acts[..k], id);
    var j := EveryVaultWasCreated(s, acts[..k], id);
    assert acts[..k][..j] == acts[..j];
    assert CreatedAt(s, acts, j, id, acts[k].call.caller);
    forall i | 0 <= i <= k && id in At(s, acts, i).vaults
      ensures At(s, acts, i).vaults[id].unlock <= e.now
    {
      VaultPersists(s, acts, i, k, id);
    }
  }

  /** No vault is ever paid out twice. */
  lemma PaidOnce(s: State, acts: seq<Action>, k: nat, l: nat)
    requires Initial(s) && PaysOut(s, acts, k) && PaysOut(s, acts, l) && k != l
    ensures acts[k].Invoke? && acts[k].call.Withdraw? && acts[l].Invoke? && acts[l].call.Withdraw?
    ensures acts[k].call.id != acts[l].call.id
  {
    if l < k {
      PaidOnce(s, acts, l, k);
    } else {
      RunKeepsInv(s, acts[..k]);
      RunKeepsInv(s, acts[..l]);
      SelfIsFixed(s, acts[..k]);
      SelfIsFixed(s, acts[..l]);
      AtNext(s, acts, k);
      AtNext(s, acts, l);
      PayoutIsWithdrawal(At(s, acts, k), acts[k]);
      PayoutIsWithdrawal(At(s, acts, l), acts[l]);
      VaultPersists(s, acts, k + 1, l, acts[k].call.id);
    }
  }

  lemma PaidVaultTakesNothing(s: State, a: Action, id: nat)
    requires NextIdOf(s) !in s.vaults && id in s.vaults && s.vaults[id].withdrawn
    ensures Contribution(s, a, id) == 0
  {
  }

  lemma AtHasNextId(s: State, acts: seq<Action>, l: nat)
    requires Initial(s) && l <= |acts|
    ensures NextIdOf(At(s, acts, l)) !in At(s, acts, l).vaults
  {
    RunKeepsInv(s, acts[..l]);
  }

  /** What has been put into vault `id` before each action of a run. */
  function Deposits(s: State, acts: seq<Action>, id: nat): nat -> int {
    (l: nat) => if l <= |acts| then DepositedInto(s, acts[..l], id) else 0
  }

  predicate SameAfter(f: nat -> int, l: nat) {
    f(l + 1) == f(l)
  }

  lemma {:induction false} SameFromOn(f: nat -> int, k: nat, l: nat)
    requires k <= l && forall i :: k <= i < l ==> SameAfter(f, i)
    ensures f(l) == f(k)
  {
    if k < l {
      SameFromOn(f, k, l - 1);
      assert SameAfter(f, l - 1);
    }
  }

  lemma DepositedNext(s: State, acts: seq<Action>, l: nat, id: nat)
    requires l < |acts| && Contribution(At(s, acts, l), acts[l], id) == 0
    ensures SameAfter(Deposits(s, acts, id), l)
  {
    assert acts[..l + 1][..l] == acts[..l];
  }

  /** Nothing is added to a vault after it was paid out. */
  lemma DepositsEndAtPayout(s: State, acts: seq<Action>, k: nat, l: nat, id: nat)
    requires Initial(s) && k <= l <= |acts|
    requires id in At(s, acts, k).vaults && At(s, acts, k).vaults[id].withdrawn
    ensures DepositedInto(s, acts[..l], id) == DepositedInto(s, acts[..k], id)
  {
    var given := Deposits(s, acts, id);
    forall i | k <= i < l
      ensures SameAfter(given, i)
    {
      AtHasNextId(s, acts, i);
      VaultPersists(s, acts, k, i, id);
      PaidVaultTakesNothing(At(s, acts, i), acts[i], id);
      DepositedNext(s, acts, i, id);
    }
    SameFromOn(given, k, l);
  }

  /**
    * Funds are never stuck. Take any unpaid vault in any reachable state, then let others do anything at all
    * without the owner's signature, then let the clock pass the unlock time: the owner's withdrawal succeeds
    * and pays in full everything the run ever put in.
    */
  lemma FundsNeverStuck(s: State, acts: seq<Action>, j: nat, id: nat, wait: nat, signers: set<Address>)
    requires Initial(s) && j <= |acts| && id in At(s, acts, j).vaults
    requires !At(s, acts, j).vaults[id].withdrawn
    requires var owner := At(s, acts, j).vaults[id].owner;
      owner in signers && forall i :: j <= i < |acts| && acts[i].Invoke? ==> owner !in acts[i].signers
    requires At(s, acts, j).vaults[id].unlock <= Run(s, acts).now + wait <= U64_MAX
    ensures var owner, amount := At(s, acts, j).vaults[id].owner, DepositedInto(s, acts, id);
      var rested := Step(Run(s, acts), Tick(wait)).0;
      var (paid, r) := Step(rested, Invoke(Withdraw(owner, id), signers));
      && amount > 0
      && r.Ok? && r.value.Paid? && r.value.amount == amount
      && Bal(paid.ledger, owner) == Bal(Run(s, acts).ledger, owner) + amount
  {
    assert acts[..|acts|] == acts;
    OthersCannotTouch(s, acts, j, |acts|, id);
    BalanceIsDeposits(s, acts, id);
    RunKeepsInv(s, acts);
    var e := Run(s, acts);
    StepKeepsInv(e, Tick(wait));
    WithdrawSucceedsIff(Step(e, Tick(wait)).0, e.vaults[id].owner, id, signers);
  }

  /** `list_owned` is the increasing sequence of exactly the owner's ids, and ids run from 0 without gaps. */
  lemma IndexIsExact(s: State, acts: seq<Action>, o: Address)
    requires Initial(s)
    ensures var e := Run(s, acts);
      && IndexOf(e.vaults, o, ListOwned(e, o))
      && (forall id :: id in e.vaults <==> 0 <= id < NextIdOf(e))
      && (forall id :: id in e.vaults ==> GetVault(e, id) == Some(e.vaults[id]) && e.vaults[id].vaultId == id)
  {
    RunKeepsInv(s, acts);
  }

  lemma StepKeepsToken(s: State, a: Action)
    requires s.token.Some?
    ensures Step(s, a).0.token == s.token
    ensures a.Invoke? && a.call.Init? ==> Step(s, a) == (s, Err(AlreadyInitialised))
  {
  }

  lemma TokenNext(s: State, acts: seq<Action>, k: nat)
    requires k < |acts| && At(s, acts, k).token.Some?
    ensures At(s, acts, k + 1).token == At(s, acts, k).token
  {
    AtNext(s, acts, k);
    StepKeepsToken(At(s, acts, k), acts[k]);
  }

  lemma {:induction false} TokenStays(s: State, acts: seq<Action>, j: nat, k: nat)
    requires j <= k <= |acts| && At(s, acts, j).token.Some?
    ensures At(s, acts, k).token == At(s, acts, j).token
  {
    if j < k {
      TokenStays(s, acts, j, k - 1);
      TokenNext(s, acts, k - 1);
    }
  }

  /** There is no setter: once wired, the token stays, and every later `init` is refused. */
  lemma TokenIsWiredOnce(s: State, acts: seq<Action>, j: nat, k: nat)
    requires j <= k <= |acts| && At(s, acts, j).token.Some?
    ensures At(s, acts, k).token == At(s, acts, j).token
    ensures k < |acts| && acts[k].Invoke? && acts[k].call.Init? ==>
      Step(At(s, acts, k), acts[k]) == (At(s, acts, k), Err(AlreadyInitialised))
  {
    TokenStays(s, acts, j, k);
    if k < |acts| {
      StepKeepsToken(At(s, acts, k), acts[k]);
    }
  }
}
