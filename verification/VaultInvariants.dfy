/** What every reachable state of the contract satisfies, and what each single step does to the money. */
module VaultInvariants {
  import opened Base
  import opened TokenLedger
  import opened VaultModel

  // ------------------------------------------------------------------ sums over the vault table

  predicate Counts(v: Vault, o: Option<Address>) {
    o.None? || v.owner == o.value
  }

  /** The balances of the vaults with ids below `n`: all of them, or those of one owner. */
  function Locked(m: map<nat, Vault>, n: nat, o: Option<Address>): int {
    if n == 0 then 0
    else Locked(m, n - 1, o) + (if n - 1 in m && Counts(m[n - 1], o) then m[n - 1].balance else 0)
  }

  lemma {:induction false} LockedSet(m: map<nat, Vault>, n: nat, id: nat, v: Vault, o: Option<Address>)
    requires id in m ==> v.owner == m[id].owner
    ensures Locked(m[id := v], n, o) ==
            Locked(m, n, o)
            + (if id < n && Counts(v, o) then v.balance - (if id in m then m[id].balance else 0) else 0)
  {
    if n > 0 {
      LockedSet(m, n - 1, id, v, o);
    }
  }

  lemma {:induction false} LockedCoversOne(m: map<nat, Vault>, n: nat, id: nat, o: Option<Address>)
    requires forall i :: i in m ==> m[i].balance >= 0
    ensures Locked(m, n, o) >= 0
    ensures id < n && id in m && Counts(m[id], o) ==> m[id].balance <= Locked(m, n, o)
  {
    if n > 0 {
      LockedCoversOne(m, n - 1, id, o);
    }
  }

  // ------------------------------------------------------------------ the invariant

  /** Ids are dense and each vault carries its own key. */
  ghost predicate IdsDense(s: State) {
    && (s.token.None? <==> s.nextId.None?)
    && NextIdOf(s) <= U64_MAX
    && (forall id :: id in s.vaults <==> 0 <= id < NextIdOf(s))
    && (forall id :: id in s.vaults ==> s.vaults[id].vaultId == id && s.vaults[id].owner != s.self)
  }

  /** `ids` is the strictly increasing sequence of exactly the ids whose vault has owner `o`. */
  ghost predicate IndexOf(vaults: map<nat, Vault>, o: Address, ids: seq<nat>) {
    && (forall i, j :: 0 <= i < j < |ids| ==> ids[i] < ids[j])
    && (forall id :: id in ids <==> id in vaults && vaults[id].owner == o)
  }

  ghost predicate IndexAgrees(s: State) {
    forall o: Address :: IndexOf(s.vaults, o, ListOwned(s, o))
  }

  /** Balances are positive until withdrawal and zero after; the contract can cover all of them. */
  ghost predicate Solvent(s: State) {
    && (forall id :: id in s.vaults ==>
          s.vaults[id].balance >= 0 && (s.vaults[id].withdrawn <==> s.vaults[id].balance == 0))
    && Locked(s.vaults, NextIdOf(s), None) <= Bal(s.ledger, s.self)
    && Total(s.ledger) <= I128_MAX
  }

  /** Log entries are in ledger order and none is later than the clock. */
  ghost predicate LogOrdered(s: State) {
    && (forall i, j :: 0 <= i < j < |s.log| ==> s.log[i].at <= s.log[j].at)
    && (forall i :: 0 <= i < |s.log| ==> s.log[i].at <= s.now)
  }

  ghost predicate Inv(s: State) {
    IdsDense(s) && IndexAgrees(s) && Solvent(s) && LogOrdered(s)
  }

  // ------------------------------------------------------------------ preservation, one action at a time

  lemma CreateKeepsIndex(s: State, owner: Address, v: Vault, s': State)
    requires IdsDense(s) && IndexAgrees(s)
    requires var id := NextIdOf(s);
      v.owner == owner && s'.vaults == s.vaults[id := v]
      && s'.owned == s.owned[owner := OwnedIds(s.owned, owner) + [id]]
    ensures IndexAgrees(s')
  {
    var id := NextIdOf(s);
    forall o: Address
      ensures IndexOf(s'.vaults, o, ListOwned(s', o))
    {
      assert IndexOf(s.vaults, o, ListOwned(s, o));
      if o == owner {
        forall i, j | 0 <= i < j < |ListOwned(s', o)|
          ensures ListOwned(s', o)[i] < ListOwned(s', o)[j]
        {
          assert ListOwned(s, o)[i] in ListOwned(s, o);
        }
      }
    }
  }

  lemma UpdateKeepsIndex(s: State, id: nat, v: Vault, s': State)
    requires IndexAgrees(s)
    requires id in s.vaults && v.owner == s.vaults[id].owner
    requires s'.vaults == s.vaults[id := v] && s'.owned == s.owned
    ensures IndexAgrees(s')
  {
    forall o: Address
      ensures IndexOf(s'.vaults, o, ListOwned(s', o))
    {
      assert IndexOf(s.vaults, o, ListOwned(s, o));
    }
  }

  lemma CreateKeepsSolvent(s: State, owner: Address, name: string, deposit: I128, unlock: U64, signers: set<Address>)
    requires IdsDense(s) && Solvent(s)
    ensures Solvent(ApplyCreate(s, owner, name, deposit, unlock, signers).0)
  {
    var (s', r) := ApplyCreate(s, owner, name, deposit, unlock, signers);
    if r.Ok? {
      var id := NextIdOf(s);
      LockedSet(s.vaults, id + 1, id, s'.vaults[id], None);
      MoveKeepsTotal(s.ledger, owner, s.self, deposit);
    }
  }

  lemma CreateKeepsInv(s: State, owner: Address, name: string, deposit: I128, unlock: U64, signers: set<Address>)
    requires Inv(s)
    ensures Inv(ApplyCreate(s, owner, name, deposit, unlock, signers).0)
  {
    var (s', r) := ApplyCreate(s, owner, name, deposit, unlock, signers);
    CreateKeepsSolvent(s, owner, name, deposit, unlock, signers);
    if r.Ok? {
      CreateKeepsIndex(s, owner, s'.vaults[NextIdOf(s)], s');
    }
  }

  lemma DepositKeepsInv(s: State, caller: Address, id: nat, amount: I128, signers: set<Address>)
    requires Inv(s)
    ensures Inv(ApplyDeposit(s, caller, id, amount, signers).0)
  {
    var (s', r) := ApplyDeposit(s, caller, id, amount, signers);
    if r.Ok? {
      UpdateKeepsIndex(s, id, s'.vaults[id], s');
      LockedSet(s.vaults, NextIdOf(s), id, s'.vaults[id], None);
      MoveKeepsTotal(s.ledger, caller, s.self, amount);
    }
  }

  lemma ExtendKeepsInv(s: State, caller: Address, id: nat, seconds: U64, signers: set<Address>)
    requires Inv(s)
    ensures Inv(ApplyExtend(s, caller, id, seconds, signers).0)
  {
    var (s', r) := ApplyExtend(s, caller, id, seconds, signers);
    if r.Ok? {
      UpdateKeepsIndex(s, id, s'.vaults[id], s');
      LockedSet(s.vaults, NextIdOf(s), id, s'.vaults[id], None);
    }
  }

  lemma WithdrawKeepsInv(s: State, caller: Address, id: nat, signers: set<Address>)
    requires Inv(s)
    ensures Inv(ApplyWithdraw(s, caller, id, signers).0)
  {
    var (s', r) := ApplyWithdraw(s, caller, id, signers);
    if r.Ok? {
      UpdateKeepsIndex(s, id, s'.vaults[id], s');
      LockedSet(s.vaults, NextIdOf(s), id, s'.vaults[id], None);
      MoveKeepsTotal(s.ledger, s.self, caller, s.vaults[id].balance);
    }
  }

  lemma InitKeepsInv(s: State, t: Address, signers: set<Address>)
    requires Inv(s)
    ensures Inv(Step(s, Invoke(Init(t), signers)).0)
  {
    var s' := Step(s, Invoke(Init(t), signers)).0;
    if s.token.None? {
      assert s.vaults == map[];
      assert forall o: Address :: ListOwned(s', o) == ListOwned(s, o);
    }
  }

  lemma TransferKeepsInv(s: State, from: Address, to: Address, amount: I128)
    requires Inv(s)
    ensures Inv(Step(s, Transfer(from, to, amount)).0)
  {
    var s' := Step(s, Transfer(from, to, amount)).0;
    if s' != s {
      MoveKeepsTotal(s.ledger, from, to, amount);
    }
    assert forall o: Address :: ListOwned(s', o) == ListOwned(s, o);
  }

  lemma StepKeepsInv(s: State, a: Action)
    requires Inv(s)
    ensures Inv(Step(s, a).0)
  {
    match a
    case Invoke(Init(t), signers) => InitKeepsInv(s, t, signers);
    case Invoke(CreateVault(o, n, d, u), signers) => CreateKeepsInv(s, o, n, d, u, signers);
    case Invoke(Deposit(o, id, amount), signers) => DepositKeepsInv(s, o, id, amount, signers);
    case Invoke(ExtendLock(o, id, secs), signers) => ExtendKeepsInv(s, o, id, secs, signers);
    case Invoke(Withdraw(o, id), signers) => WithdrawKeepsInv(s, o, id, signers);
    case Tick(_) =>
      assert forall o: Address :: ListOwned(Step(s, a).0, o) == ListOwned(s, o);
    case Transfer(from, to, amount) => TransferKeepsInv(s, from, to, amount);
  }

  /** Index agreement and solvency hold in every reachable state. */
  lemma {:induction false} RunKeepsInv(s: State, acts: seq<Action>)
    requires Initial(s)
    ensures Inv(Run(s, acts))
  {
    if acts != [] {
      RunKeepsInv(s, acts[..|acts| - 1]);
      StepKeepsInv(Run(s, acts[..|acts| - 1]), acts[|acts| - 1]);
    }
  }

  // ------------------------------------------------------------------ conservation

  /** An owner's wallet together with what is locked in their vaults. */
  function Wealth(s: State, o: Address): int {
    Bal(s.ledger, o) + Locked(s.vaults, NextIdOf(s), Some(o))
  }

  /** What the contract holds beyond its vault balances. */
  function Surplus(s: State): int {
    Bal(s.ledger, s.self) - Locked(s.vaults, NextIdOf(s), None)
  }

  /** Replacing vault `id` moves both sums by the change of its balance. */
  lemma SumsAfterSet(s: State, s': State, id: nat, v: Vault, o: Address)
    requires IdsDense(s) && id <= NextIdOf(s)
    requires s'.vaults == s.vaults[id := v]
    requires NextIdOf(s') == if id == NextIdOf(s) then id + 1 else NextIdOf(s)
    requires id in s.vaults ==> v.owner == s.vaults[id].owner
    ensures var delta := v.balance - (if id in s.vaults then s.vaults[id].balance else 0);
      && Locked(s'.vaults, NextIdOf(s'), None) == Locked(s.vaults, NextIdOf(s), None) + delta
      && Locked(s'.vaults, NextIdOf(s'), Some(o)) ==
         Locked(s.vaults, NextIdOf(s), Some(o)) + (if v.owner == o then delta else 0)
  {
    LockedSet(s.vaults, NextIdOf(s'), id, v, None);
    LockedSet(s.vaults, NextIdOf(s'), id, v, Some(o));
  }

  lemma CreateConserves(s: State, owner: Address, name: string, deposit: I128, unlock: U64,
                        signers: set<Address>, o: Address)
    requires Inv(s) && o != s.self
    ensures var s' := ApplyCreate(s, owner, name, deposit, unlock, signers).0;
      Wealth(s', o) == Wealth(s, o) && Surplus(s') == Surplus(s)
  {
    var (s', r) := ApplyCreate(s, owner, name, deposit, unlock, signers);
    if r.Ok? {
      SumsAfterSet(s, s', NextIdOf(s), s'.vaults[NextIdOf(s)], o);
    }
  }

  lemma DepositConserves(s: State, caller: Address, id: nat, amount: I128, signers: set<Address>, o: Address)
    requires Inv(s) && o != s.self
    ensures var s' := ApplyDeposit(s, caller, id, amount, signers).0;
      Wealth(s', o) == Wealth(s, o) && Surplus(s') == Surplus(s)
  {
    var (s', r) := ApplyDeposit(s, caller, id, amount, signers);
    if r.Ok? {
      SumsAfterSet(s, s', id, s'.vaults[id], o);
    }
  }

  lemma ExtendConserves(s: State, caller: Address, id: nat, seconds: U64, signers: set<Address>, o: Address)
    requires Inv(s) && o != s.self
    ensures var s' := ApplyExtend(s, caller, id, seconds, signers).0;
      Wealth(s', o) == Wealth(s, o) && Surplus(s') == Surplus(s)
  {
    var (s', r) := ApplyExtend(s, caller, id, seconds, signers);
    if r.Ok? {
      SumsAfterSet(s, s', id, s'.vaults[id], o);
    }
  }

  lemma WithdrawConserves(s: State, caller: Address, id: nat, signers: set<Address>, o: Address)
    requires Inv(s) && o != s.self
    ensures var s' := ApplyWithdraw(s, caller, id, signers).0;
      Wealth(s', o) == Wealth(s, o) && Surplus(s') == Surplus(s)
  {
    var (s', r) := ApplyWithdraw(s, caller, id, signers);
    if r.Ok? {
      SumsAfterSet(s, s', id, s'.vaults[id], o);
    }
  }

  /** No call of the contract makes any owner richer or poorer, and none touches the surplus. */
  lemma CallConserves(s: State, c: Call, signers: set<Address>, o: Address)
    requires Inv(s) && o != s.self
    ensures var s' := ApplyCall(s, c, signers).0;
      Wealth(s', o) == Wealth(s, o) && Surplus(s') == Surplus(s)
  {
    match c {
      case Init(t) =>
      case CreateVault(w, n, d, u) => CreateConserves(s, w, n, d, u, signers, o);
      case Deposit(w, id, amount) => DepositConserves(s, w, id, amount, signers, o);
      case ExtendLock(w, id, secs) => ExtendConserves(s, w, id, secs, signers, o);
      case Withdraw(w, id) => WithdrawConserves(s, w, id, signers, o);
    }
  }

  // ------------------------------------------------------------------ who may change what

  /** `v'` is what an owner, if signed for, can make of vault `v`. */
  predicate OwnersChange(v: Vault, v': Vault, signed: bool) {
    && v'.vaultId == v.vaultId && v'.owner == v.owner && v'.created == v.created && v'.name == v.name
    && v'.unlock >= v.unlock
    && (v.withdrawn ==> v' == v)
    && (v' != v ==> signed)
  }

  lemma CallKeepsVault(s: State, c: Call, signers: set<Address>, id: nat)
    requires id in s.vaults && NextIdOf(s) !in s.vaults && s.vaults[id].owner != s.self
    ensures var s' := ApplyCall(s, c, signers).0;
      id in s'.vaults && OwnersChange(s.vaults[id], s'.vaults[id], s.vaults[id].owner in signers)
  {
    match c {
      case Init(t) =>
      case CreateVault(w, n, d, u) => assert id != NextIdOf(s);
      case Deposit(w, i, amount) =>
      case ExtendLock(w, i, secs) =>
      case Withdraw(w, i) =>
    }
  }

  /**
    * Whatever happens, a vault never disappears, never changes owner, id or creation time, never gets an
    * earlier unlock time and never comes back from withdrawal; and any change at all is signed by its owner.
    */
  lemma VaultOnlyChangesByOwner(s: State, a: Action, id: nat)
    requires Inv(s) && id in s.vaults
    ensures var s' := Step(s, a).0;
      && id in s'.vaults
      && var v, v' := s.vaults[id], s'.vaults[id];
      && v'.vaultId == v.vaultId && v'.owner == v.owner && v'.created == v.created && v'.name == v.name
      && v'.unlock >= v.unlock
      && (v.withdrawn ==> v' == v)
      && (v' != v ==> a.Invoke? && v.owner in a.signers && v.owner != s.self)
  {
    assert NextIdOf(s) !in s.vaults;
    if a.Invoke? {
      CallKeepsVault(s, a.call, a.signers, id);
    }
  }

  // ------------------------------------------------------------------ exactly when each call succeeds

  lemma CreateSucceedsIff(s: State, owner: Address, name: string, deposit: I128, unlock: U64, signers: set<Address>)
    requires Inv(s)
    ensures var (s', r) := ApplyCreate(s, owner, name, deposit, unlock, signers);
      && (r.Ok? <==>
            && s.token.Some? && Authorised(s, owner, signers)
            && 0 < deposit <= Bal(s.ledger, owner)
            && unlock > s.now && NextIdOf(s) < U64_MAX)
      && (r.Ok? ==>
            var id := NextIdOf(s);
            && r.value == VaultId(id) && id !in s.vaults
            && s'.vaults == s.vaults[id := Vault(id, owner, name, deposit, unlock, s.now, false)])
  {
    if owner != s.self {
      TwoBalances(s.ledger, owner, s.self);
    }
  }

  lemma DepositSucceedsIff(s: State, caller: Address, id: nat, amount: I128, signers: set<Address>)
    requires Inv(s)
    ensures ApplyDeposit(s, caller, id, amount, signers).1.Ok? <==>
            && Authorised(s, caller, signers)
            && 0 < amount <= Bal(s.ledger, caller)
            && id in s.vaults && s.vaults[id].owner == caller && !s.vaults[id].withdrawn
  {
    if caller != s.self {
      TwoBalances(s.ledger, caller, s.self);
    }
    LockedCoversOne(s.vaults, NextIdOf(s), id, None);
  }

  /** In particular the payment itself can never be what fails: that is where solvency is needed. */
  lemma WithdrawSucceedsIff(s: State, caller: Address, id: nat, signers: set<Address>)
    requires Inv(s)
    ensures ApplyWithdraw(s, caller, id, signers).1.Ok? <==>
            && Authorised(s, caller, signers)
            && id in s.vaults && s.vaults[id].owner == caller && !s.vaults[id].withdrawn
            && s.vaults[id].unlock <= s.now
  {
    if caller != s.self {
      TwoBalances(s.ledger, caller, s.self);
    }
    LockedCoversOne(s.vaults, NextIdOf(s), id, None);
  }

  /** An extension succeeds for the owner of an unpaid vault unless the new time leaves 64 bits; it only adds. */
  lemma ExtendSucceedsIff(s: State, caller: Address, id: nat, seconds: U64, signers: set<Address>)
    requires Inv(s)
    ensures var (s', r) := ApplyExtend(s, caller, id, seconds, signers);
      && (r.Ok? <==>
            && Authorised(s, caller, signers) && seconds > 0
            && id in s.vaults && s.vaults[id].owner == caller && !s.vaults[id].withdrawn
            && s.vaults[id].unlock + seconds <= U64_MAX)
      && (r.Ok? ==>
            r.value == UnlockAt(s.vaults[id].unlock + seconds)
            && s'.vaults == s.vaults[id := s.vaults[id].(unlock := r.value.time)] && s'.ledger == s.ledger)
  {
  }

  // ------------------------------------------------------------------ exactly which answer each call gives

  /** Wiring stores the token it is given and starts the ids at 0; a second wiring is refused. */
  lemma InitAnswers(s: State, t: Address)
    ensures var (s', r) := ApplyInit(s, t);
      if s.token.None? then r == Ok(Unit) && s'.token == Some(t) && s'.nextId == Some(0) && s'.vaults == s.vaults
      else r == Err(AlreadyInitialised) && s' == s
  {
  }

  lemma CreateAnswers(s: State, owner: Address, name: string, deposit: I128, unlock: U64, signers: set<Address>)
    requires Inv(s)
    ensures var r := ApplyCreate(s, owner, name, deposit, unlock, signers).1;
      var mayAsk := owner in signers && owner != s.self;
      var canPay := s.token.Some? && deposit <= Bal(s.ledger, owner);
      && (r == Trap <==> !mayAsk || (deposit > 0 && unlock > s.now && !canPay))
      && (r == Err(InvalidAmount) <==>
            mayAsk && (deposit <= 0 || (unlock > s.now && canPay && NextIdOf(s) == U64_MAX)))
      && (r == Err(InvalidTimestamp) <==> mayAsk && deposit > 0 && unlock <= s.now)
      && (r.Ok? <==> mayAsk && deposit > 0 && unlock > s.now && canPay && NextIdOf(s) < U64_MAX)
  {
    CreateSucceedsIff(s, owner, name, deposit, unlock, signers);
    if owner != s.self {
      TwoBalances(s.ledger, owner, s.self);
    }
  }

  lemma DepositAnswers(s: State, caller: Address, id: nat, amount: I128, signers: set<Address>)
    requires Inv(s)
    ensures var r := ApplyDeposit(s, caller, id, amount, signers).1;
      var mayAsk := caller in signers && caller != s.self;
      var asks := mayAsk && amount > 0;
      && (r == Err(InvalidAmount) <==> mayAsk && amount <= 0)
      && (r == Err(VaultNotFound) <==> asks && id !in s.vaults)
      && (r == Err(NotOwner) <==> asks && id in s.vaults && s.vaults[id].owner != caller)
      && (r == Err(AlreadyWithdrawn) <==>
            asks && id in s.vaults && s.vaults[id].owner == caller && s.vaults[id].withdrawn)
      && (r == Trap <==> !mayAsk || (asks && id in s.vaults && s.vaults[id].owner == caller
                                     && !s.vaults[id].withdrawn && amount > Bal(s.ledger, caller)))
      && (r.Ok? ==> r == Ok(Unit))
  {
    DepositSucceedsIff(s, caller, id, amount, signers);
  }

  lemma ExtendAnswers(s: State, caller: Address, id: nat, seconds: U64, signers: set<Address>)
    requires Inv(s)
    ensures var r := ApplyExtend(s, caller, id, seconds, signers).1;
      var mayAsk := caller in signers && caller != s.self;
      var asks := mayAsk && seconds > 0;
      && (r == Trap <==> !mayAsk)
      && (r == Err(ShortenForbidden) <==> mayAsk && seconds == 0)
      && (r == Err(VaultNotFound) <==> asks && id !in s.vaults)
      && (r == Err(NotOwner) <==> asks && id in s.vaults && s.vaults[id].owner != caller)
      && (r == Err(AlreadyWithdrawn) <==>
            asks && id in s.vaults && s.vaults[id].owner == caller && s.vaults[id].withdrawn)
      && (r == Err(InvalidTimestamp) <==>
            asks && id in s.vaults && s.vaults[id].owner == caller && !s.vaults[id].withdrawn
            && s.vaults[id].unlock + seconds > U64_MAX)
  {
  }

  lemma WithdrawAnswers(s: State, caller: Address, id: nat, signers: set<Address>)
    requires Inv(s)
    ensures var r := ApplyWithdraw(s, caller, id, signers).1;
      var asks := caller in signers && caller != s.self;
      && (r == Trap <==> !asks)
      && (r == Err(VaultNotFound) <==> asks && id !in s.vaults)
      && (r == Err(NotOwner) <==> asks && id in s.vaults && s.vaults[id].owner != caller)
      && (r == Err(AlreadyWithdrawn) <==>
            asks && id in s.vaults && s.vaults[id].owner == caller && s.vaults[id].withdrawn)
      && (r == Err(StillLocked) <==>
            asks && id in s.vaults && s.vaults[id].owner == caller && !s.vaults[id].withdrawn
            && s.now < s.vaults[id].unlock)
      && (r.Ok? ==> r == Ok(Paid(s.vaults[id].balance)))
  {
    WithdrawSucceedsIff(s, caller, id, signers);
  }
}
