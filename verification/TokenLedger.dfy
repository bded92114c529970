/** Balances of the one token the vault contract is wired to. */
module TokenLedger {
  import opened Base

  type Ledger = map<Address, nat>

  function Bal(l: Ledger, a: Address): nat {
    if a in l then l[a] else 0
  }

  /** When a transfer goes through; otherwise the token traps. */
  predicate CanMove(l: Ledger, from: Address, to: Address, amount: int) {
    && 0 <= amount <= Bal(l, from)
    && (from == to || Bal(l, to) + amount <= I128_MAX)
  }

  function Move(l: Ledger, from: Address, to: Address, amount: int): Ledger
    requires CanMove(l, from, to, amount)
  {
    var debited := l[from := Bal(l, from) - amount];
    debited[to := Bal(debited, to) + amount]
  }

  /** The whole token supply. */
  ghost function Total(l: Ledger): nat
    decreases |l|
  {
    if l == map[] then 0
    else
      var a :| a in l;
      l[a] + Total(l - {a})
  }

  lemma {:induction false} TotalSplit(l: Ledger, a: Address)
    requires a in l
    ensures Total(l) == l[a] + Total(l - {a})
    decreases |l|
  {
    var b :| b in l && Total(l) == l[b] + Total(l - {b});
    if a != b {
      TotalSplit(l - {b}, a);
      TotalSplit(l - {a}, b);
      assert l - {b} - {a} == l - {a} - {b};
    }
  }

  lemma TotalSet(l: Ledger, a: Address, v: nat)
    ensures Total(l[a := v]) == Total(l) - Bal(l, a) + v
  {
    TotalSplit(l[a := v], a);
    if a in l {
      TotalSplit(l, a);
      assert l[a := v] - {a} == l - {a};
    } else {
      assert l[a := v] - {a} == l;
    }
  }

  /** A transfer neither mints nor burns. */
  lemma MoveKeepsTotal(l: Ledger, from: Address, to: Address, amount: int)
    requires CanMove(l, from, to, amount)
    ensures Total(Move(l, from, to, amount)) == Total(l)
  {
    var debited := l[from := Bal(l, from) - amount];
    TotalSet(l, from, Bal(l, from) - amount);
    TotalSet(debited, to, Bal(debited, to) + amount);
  }

  /** Two different accounts together never hold more than the supply. */
  lemma TwoBalances(l: Ledger, a: Address, b: Address)
    requires a != b
    ensures Bal(l, a) + Bal(l, b) <= Total(l)
  {
    TotalSet(l, a, 0);
    TotalSet(l[a := 0], b, 0);
  }

  /** With a supply of at most 128 bits the sender's balance alone decides. */
  lemma CanMoveIff(l: Ledger, from: Address, to: Address, amount: int)
    requires Total(l) < 0x8000_0000_0000_0000_0000_0000_0000_0000
    ensures CanMove(l, from, to, amount) <==> 0 <= amount <= Bal(l, from)
  {
    if from != to {
      TwoBalances(l, from, to);
    }
  }
}
