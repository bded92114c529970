/**
  * The contract as it is written: entry points that update storage field by field, inside a host that
  * undoes a failed call. Every entry point is proved against its function in `VaultModel`.
  */
module VaultContract {
  import opened Base
  import opened TokenLedger
  import opened VaultModel

  class XlmVault {
    const self: Address
    var token: Option<Address>
    var nextId: Option<nat>
    var vaults: map<nat, Vault>
    var owned: map<Address, seq<nat>>
    var ledger: Ledger
    var now: U64
    var log: seq<LogEntry>

    ghost function Abs(): State
      reads this
    {
      State(self, token, nextId, vaults, owned, ledger, now, log)
    }

    constructor (self: Address, ledger: Ledger, now: U64)
      ensures Abs() == State(self, None, None, map[], map[], ledger, now, [])
    {
      this.self := self;
      this.token, this.nextId, this.vaults, this.owned := None, None, map[], map[];
      this.ledger, this.now, this.log := ledger, now, [];
    }

    /** `pull` and `push`: `ok` is false when the host traps. */
    method Pay(from: Address, to: Address, amount: I128) returns (ok: bool)
      modifies this`ledger
      ensures ok == CanPay(old(Abs()), from, to, amount)
      ensures ledger == if ok then Move(old(ledger), from, to, amount) else old(ledger)
    {
      if token.None? || !CanMove(ledger, from, to, amount) {
        return false;
      }
      ledger := ledger[from := Bal(ledger, from) - amount];
      ledger := ledger[to := Bal(ledger, to) + amount];
      ok := true;
    }

    method Emit(e: Event)
      modifies this`log
      ensures log == Publish(old(Abs()), e)
    {
      log := log + [LogEntry(now, e)];
    }

    method Init(tokenAddress: Address) returns (r: Outcome)
      modifies this
      ensures r == ApplyInit(old(Abs()), tokenAddress).1
      ensures r.Ok? ==> Abs() == ApplyInit(old(Abs()), tokenAddress).0
    {
      if token.Some? {
        return Err(AlreadyInitialised);
      }
      token := Some(tokenAddress);
      nextId := Some(0);
      r := Ok(Unit);
    }

    /** The deposit is pulled before the id counter is checked; only the host's rollback makes that safe. */
    method CreateVault(owner: Address, name: string, deposit: I128, unlock: U64, signers: set<Address>)
      returns (r: Outcome)
      modifies this
      ensures r == ApplyCreate(old(Abs()), owner, name, deposit, unlock, signers).1
      ensures r.Ok? ==> Abs() == ApplyCreate(old(Abs()), owner, name, deposit, unlock, signers).0
    {
      if !(owner in signers && owner != self) {
        return Trap;
      }
      if deposit <= 0 {
        return Err(InvalidAmount);
      }
      if unlock <= now {
        return Err(InvalidTimestamp);
      }
      var pulled := Pay(owner, self, deposit);
      if !pulled {
        return Trap;
      }
      var id := nextId.GetOr(0);
      if id + 1 > U64_MAX {
        return Err(InvalidAmount);
      }
      nextId := Some(id + 1);
      vaults := vaults[id := Vault(id, owner, name, deposit, unlock, now, false)];
      var ids := if owner in owned then owned[owner] else [];
      ids := ids + [id];
      owned := owned[owner := ids];
      Emit(Created(owner, id, deposit, unlock));
      r := Ok(VaultId(id));
    }

    method Deposit(caller: Address, id: nat, amount: I128, signers: set<Address>) returns (r: Outcome)
      modifies this
      ensures r == ApplyDeposit(old(Abs()), caller, id, amount, signers).1
      ensures r.Ok? ==> Abs() == ApplyDeposit(old(Abs()), caller, id, amount, signers).0
    {
      if !(caller in signers && caller != self) {
        return Trap;
      }
      if amount <= 0 {
        return Err(InvalidAmount);
      }
      if id !in vaults {
        return Err(VaultNotFound);
      }
      var v := vaults[id];
      if v.owner != caller {
        return Err(NotOwner);
      }
      if v.withdrawn {
        return Err(AlreadyWithdrawn);
      }
      var pulled := Pay(caller, self, amount);
      if !pulled || v.balance + amount > I128_MAX {
        return Trap;
      }
      v := v.(balance := v.balance + amount);
      vaults := vaults[id := v];
      Emit(Deposited(caller, id, amount));
      r := Ok(Unit);
    }

    method ExtendLock(caller: Address, id: nat, seconds: U64, signers: set<Address>) returns (r: Outcome)
      modifies this
      ensures r == ApplyExtend(old(Abs()), caller, id, seconds, signers).1
      ensures r.Ok? ==> Abs() == ApplyExtend(old(Abs()), caller, id, seconds, signers).0
    {
      if !(caller in signers && caller != self) {
        return Trap;
      }
      if seconds == 0 {
        return Err(ShortenForbidden);
      }
      if id !in vaults {
        return Err(VaultNotFound);
      }
      var v := vaults[id];
      if v.owner != caller {
        return Err(NotOwner);
      }
      if v.withdrawn {
        return Err(AlreadyWithdrawn);
      }
      if v.unlock + seconds > U64_MAX {
        return Err(InvalidTimestamp);
      }
      v := v.(unlock := v.unlock + seconds);
      vaults := vaults[id := v];
      Emit(Extended(caller, id, v.unlock));
      r := Ok(UnlockAt(v.unlock));
    }

    method Withdraw(caller: Address, id: nat, signers: set<Address>) returns (r: Outcome)
      modifies this
      ensures r == ApplyWithdraw(old(Abs()), caller, id, signers).1
      ensures r.Ok? ==> Abs() == ApplyWithdraw(old(Abs()), caller, id, signers).0
    {
      if !(caller in signers && caller != self) {
        return Trap;
      }
      if id !in vaults {
        return Err(VaultNotFound);
      }
      var v := vaults[id];
      if v.owner != caller {
        return Err(NotOwner);
      }
      if v.withdrawn {
        return Err(AlreadyWithdrawn);
      }
      if now < v.unlock {
        return Err(StillLocked);
      }
      var amount := v.balance;
      v := v.(balance := 0);
      v := v.(withdrawn := true);
      vaults := vaults[id := v];
      var pushed := Pay(self, caller, amount);
      if !pushed {
        return Trap;
      }
      Emit(Withdrew(caller, id, amount));
      r := Ok(Paid(amount));
    }

    /** One host invocation: a failed call leaves no trace, however far it got. */
    method Invoke(c: Call, signers: set<Address>) returns (r: Outcome)
      modifies this
      ensures r == ApplyCall(old(Abs()), c, signers).1
      ensures Abs() == ApplyCall(old(Abs()), c, signers).0
      ensures !r.Ok? ==> Abs() == old(Abs())
    {
      var token0, nextId0, vaults0, owned0 := token, nextId, vaults, owned;
      var ledger0, now0, log0 := ledger, now, log;
      match c {
        case Init(t) => r := Init(t);
        case CreateVault(o, n, d, u) => r := CreateVault(o, n, d, u, signers);
        case Deposit(o, id, amount) => r := Deposit(o, id, amount, signers);
        case ExtendLock(o, id, secs) => r := ExtendLock(o, id, secs, signers);
        case Withdraw(o, id) => r := Withdraw(o, id, signers);
      }
      if !r.Ok? {
        token, nextId, vaults, owned := token0, nextId0, vaults0, owned0;
        ledger, now, log := ledger0, now0, log0;
      }
    }
  }
}
