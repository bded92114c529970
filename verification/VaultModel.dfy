/**
  * The vault contract as a state machine on values.
  *
  * A `State` is everything the contract and its host keep: instance storage (`token`, `nextId`), persistent
  * storage (`vaults`, `owned`), the token ledger, the ledger clock and the event log. A call either succeeds
  * and changes the state, or fails (`Err` or `Trap`) and changes nothing.
  */
module VaultModel {
  import opened Base
  import opened TokenLedger

  datatype Error =
    | NotOwner | StillLocked | AlreadyWithdrawn | ShortenForbidden
    | VaultNotFound | InvalidAmount | InvalidTimestamp | AlreadyInitialised

  datatype Vault = Vault(
    vaultId: nat,
    owner: Address,
    name: string,
    balance: I128,
    unlock: U64,
    created: U64,
    withdrawn: bool)

  datatype Event =
    | Created(who: Address, id: nat, amount: I128, unlock: U64)
    | Deposited(who: Address, id: nat, amount: I128)
    | Extended(who: Address, id: nat, unlock: U64)
    | Withdrew(who: Address, id: nat, amount: I128)

  /** An event with the close time of the ledger that carries it. */
  datatype LogEntry = LogEntry(at: U64, event: Event)

  datatype State = State(
    self: Address,
    token: Option<Address>,
    nextId: Option<nat>,
    vaults: map<nat, Vault>,
    owned: map<Address, seq<nat>>,
    ledger: Ledger,
    now: U64,
    log: seq<LogEntry>)

  datatype Value = Unit | VaultId(id: nat) | UnlockAt(time: U64) | Paid(amount: I128)
  datatype Outcome = Ok(value: Value) | Err(error: Error) | Trap

  datatype Call =
    | Init(tokenAddress: Address)
    | CreateVault(owner: Address, name: string, deposit: I128, unlock: U64)
    | Deposit(caller: Address, id: nat, amount: I128)
    | ExtendLock(caller: Address, id: nat, seconds: U64)
    | Withdraw(caller: Address, id: nat)

  /** What may happen next: a call with the signatures it carries, time passing, or a transfer by others. */
  datatype Action =
    | Invoke(call: Call, signers: set<Address>)
    | Tick(seconds: nat)
    | Transfer(from: Address, to: Address, amount: I128)

  /** `require_auth`. The contract never calls itself, so nothing is ever signed by its own address. */
  predicate Authorised(s: State, who: Address, signers: set<Address>) {
    who in signers && who != s.self
  }

  function NextIdOf(s: State): nat {
    s.nextId.GetOr(0)
  }

  function OwnedIds(owned: map<Address, seq<nat>>, o: Address): seq<nat> {
    if o in owned then owned[o] else []
  }

  /** A transfer of the configured token: traps before `init` and when the token refuses. */
  predicate CanPay(s: State, from: Address, to: Address, amount: int) {
    s.token.Some? && CanMove(s.ledger, from, to, amount)
  }

  function Publish(s: State, e: Event): seq<LogEntry> {
    s.log + [LogEntry(s.now, e)]
  }

  function ApplyInit(s: State, tokenAddress: Address): (State, Outcome) {
    if s.token.Some? then (s, Err(AlreadyInitialised))
    else (s.(token := Some(tokenAddress), nextId := Some(0)), Ok(Unit))
  }

  function ApplyCreate(s: State, owner: Address, name: string, deposit: I128, unlock: U64, signers: set<Address>)
    : (State, Outcome)
  {
    if !Authorised(s, owner, signers) then (s, Trap)
    else if deposit <= 0 then (s, Err(InvalidAmount))
    else if unlock <= s.now then (s, Err(InvalidTimestamp))
    else if !CanPay(s, owner, s.self, deposit) then (s, Trap)
    else
      var id := NextIdOf(s);
      if id + 1 > U64_MAX then (s, Err(InvalidAmount))
      else
        (s.(nextId := Some(id + 1),
            vaults := s.vaults[id := Vault(id, owner, name, deposit, unlock, s.now, false)],
            owned := s.owned[owner := OwnedIds(s.owned, owner) + [id]],
            ledger := Move(s.ledger, owner, s.self, deposit),
            log := Publish(s, Created(owner, id, deposit, unlock))),
         Ok(VaultId(id)))
  }

  /** The checks `deposit`, `extend_lock` and `withdraw` share, in the order they are made. */
  function OwnerCheck(s: State, caller: Address, id: nat): Option<Error> {
    if id !in s.vaults then Some(VaultNotFound)
    else if s.vaults[id].owner != caller then Some(NotOwner)
    else if s.vaults[id].withdrawn then Some(AlreadyWithdrawn)
    else None
  }

  function ApplyDeposit(s: State, caller: Address, id: nat, amount: I128, signers: set<Address>)
    : (State, Outcome)
  {
    if !Authorised(s, caller, signers) then (s, Trap)
    else if amount <= 0 then (s, Err(InvalidAmount))
    else
      var failed := OwnerCheck(s, caller, id);
      if failed.Some? then (s, Err(failed.value))
      else
        var v := s.vaults[id];
        if !CanPay(s, caller, s.self, amount) || v.balance + amount > I128_MAX then (s, Trap)
        else
          (s.(vaults := s.vaults[id := v.(balance := v.balance + amount)],
              ledger := Move(s.ledger, caller, s.self, amount),
              log := Publish(s, Deposited(caller, id, amount))),
           Ok(Unit))
  }

  function ApplyExtend(s: State, caller: Address, id: nat, seconds: U64, signers: set<Address>)
    : (State, Outcome)
  {
    if !Authorised(s, caller, signers) then (s, Trap)
    else if seconds == 0 then (s, Err(ShortenForbidden))
    else
      var failed := OwnerCheck(s, caller, id);
      if failed.Some? then (s, Err(failed.value))
      else
        var v := s.vaults[id];
        if v.unlock + seconds > U64_MAX then (s, Err(InvalidTimestamp))
        else
          (s.(vaults := s.vaults[id := v.(unlock := v.unlock + seconds)],
              log := Publish(s, Extended(caller, id, v.unlock + seconds))),
           Ok(UnlockAt(v.unlock + seconds)))
  }

  function ApplyWithdraw(s: State, caller: Address, id: nat, signers: set<Address>): (State, Outcome) {
    if !Authorised(s, caller, signers) then (s, Trap)
    else
      var failed := OwnerCheck(s, caller, id);
      if failed.Some? then (s, Err(failed.value))
      else
        var v := s.vaults[id];
        if s.now < v.unlock then (s, Err(StillLocked))
        else if !CanPay(s, s.self, caller, v.balance) then (s, Trap)
        else
          (s.(vaults := s.vaults[id := v.(balance := 0, withdrawn := true)],
              ledger := Move(s.ledger, s.self, caller, v.balance),
              log := Publish(s, Withdrew(caller, id, v.balance))),
           Ok(Paid(v.balance)))
  }

  function ApplyCall(s: State, c: Call, signers: set<Address>): (State, Outcome) {
    match c
    case Init(t) => ApplyInit(s, t)
    case CreateVault(o, n, d, u) => ApplyCreate(s, o, n, d, u, signers)
    case Deposit(o, id, amount) => ApplyDeposit(s, o, id, amount, signers)
    case ExtendLock(o, id, secs) => ApplyExtend(s, o, id, secs, signers)
    case Withdraw(o, id) => ApplyWithdraw(s, o, id, signers)
  }

  /** One step of the world. The clock only moves forward; nobody can spend the contract's own tokens. */
  function Step(s: State, a: Action): (State, Outcome) {
    match a
    case Invoke(c, signers) => ApplyCall(s, c, signers)
    case Tick(secs) =>
      if s.now + secs <= U64_MAX then (s.(now := s.now + secs), Ok(Unit)) else (s, Trap)
    case Transfer(from, to, amount) =>
      if from == s.self || !CanMove(s.ledger, from, to, amount) then (s, Trap)
      else (s.(ledger := Move(s.ledger, from, to, amount)), Ok(Unit))
  }

  function GetVault(s: State, id: nat): Option<Vault> {
    if id in s.vaults then Some(s.vaults[id]) else None
  }

  function ListOwned(s: State, o: Address): seq<nat> {
    OwnedIds(s.owned, o)
  }

  /** A freshly deployed contract over any ledger whose supply fits the token's number type. */
  ghost predicate Initial(s: State) {
    && s.token.None? && s.nextId.None?
    && s.vaults == map[] && s.owned == map[] && s.log == []
    && Total(s.ledger) <= I128_MAX
  }

  /** The state after a run of actions. */
  function Run(s: State, acts: seq<Action>): State {
    if acts == [] then s
    else Step(Run(s, acts[..|acts| - 1]), acts[|acts| - 1]).0
  }
}
