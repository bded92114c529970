/**
  * A server that pages a log, and two runs of the contract that the dashboard does not show as they are: one with
  * more events than a read takes, one with an unlock time beyond 2100.
  */
module ConcreteReads {
  import opened Base
  import opened TokenLedger
  import opened Decimal
  import opened Calendar
  import opened Events
  import opened Paging
  import opened Rows
  import opened Replay
  import opened StableSort
  import opened VaultList
  import opened ReplayRefinement
  import opened ClientView
  import V = VaultModel
  import VaultInvariants
  import VaultRuns

  // ------------------------------------------------------------------ a server

  /** Cursors as tally marks. */
  function Cursor(p: nat): string {
    seq(p, _ => '|')
  }

  function Place(q: Request): nat {
    match q
    case FromLedger(_) => 0
    case FromCursor(c) => |c|
  }

  function PageAt(log: seq<RawEvent>, p: nat): Page {
    var next := p + EVENT_PAGE_LIMIT;
    if next < |log| then Page(log[p..next], Some(Cursor(next)))
    else Page(if p <= |log| then log[p..] else [], None)
  }

  /** It answers every request, from the first event on, with full pages, and stops at the end of the log. */
  function Pager(log: seq<RawEvent>): Server {
    (n: nat, q: Request) => Some(PageAt(log, Place(q)))
  }

  lemma PagerServes(log: seq<RawEvent>)
    ensures Serves(Pager(log), log, Place) && Diligent(Pager(log), log, Place) && Steady(Pager(log), log, Place)
  {
    forall n: nat, q: Request | Place(q) <= |log|
      ensures Slice(Pager(log)(n, q).value, log, Place(q), Place)
      ensures !GoesOn(Pager(log)(n, q).value, q) ==> ToTheEnd(Pager(log)(n, q).value, log, Place(q))
      ensures GoesOn(Pager(log)(n, q).value, q) ==> IsSteady(Pager(log)(n, q).value, log, Place(q))
    {
      var p := Place(q);
      assert Pager(log)(n, q).value == PageAt(log, p);
      if p + EVENT_PAGE_LIMIT < |log| {
        assert Place(FromCursor(Cursor(p + EVENT_PAGE_LIMIT))) == p + EVENT_PAGE_LIMIT;
      } else {
        assert log[p..] == log[p..|log|];
      }
    }
  }

  // ------------------------------------------------------------------ more events than a read takes

  /** After `n` requests of a long log the read has all of the first `n` pages and goes on. */
  ghost predicate OnPage(p: Progress, n: nat) {
    p.Going? && p.read == EVENT_PAGE_LIMIT * n && Place(p.next) == EVENT_PAGE_LIMIT * n
  }

  lemma PageReads(log: seq<RawEvent>, entries: seq<V.LogEntry>, p: nat)
    requires PublishesAll(log, entries) && p + EVENT_PAGE_LIMIT < |log|
    requires forall i :: 0 <= i < p + EVENT_PAGE_LIMIT ==> Printable(entries[i])
    ensures ParseAll(PageAt(log, p).events).Some?
  {
    var next := p + EVENT_PAGE_LIMIT;
    SlicePublishes(log, entries, p, next);
    ParseAllPublished(log[p..next], entries[p..next]);
  }

  lemma TurnOfPage(log: seq<RawEvent>, entries: seq<V.LogEntry>, p: Progress, n: nat)
    requires PublishesAll(log, entries) && |log| > MAX_EVENTS && n < 5 && OnPage(p, n)
    requires forall i :: 0 <= i < MAX_EVENTS ==> Printable(entries[i])
    ensures OnPage(Turn(Pager(log), n, p), n + 1)
  {
    PageReads(log, entries, EVENT_PAGE_LIMIT * n);
    assert Pager(log)(n, p.next) == Some(PageAt(log, EVENT_PAGE_LIMIT * n));
  }

  lemma {:induction false} LongReadGoesOn(log: seq<RawEvent>, entries: seq<V.LogEntry>, ledger: int, n: nat)
    requires PublishesAll(log, entries) && |log| > MAX_EVENTS && n <= 5
    requires forall i :: 0 <= i < MAX_EVENTS ==> Printable(entries[i])
    ensures OnPage(Reads(Pager(log), ledger)(n), n)
  {
    if n > 0 {
      LongReadGoesOn(log, entries, ledger, n - 1);
      TurnOfPage(log, entries, Reads(Pager(log), ledger)(n - 1), n - 1);
    }
  }

  lemma RowsOfRead(log: seq<RawEvent>, entries: seq<V.LogEntry>, ledger: int, n: nat)
    requires PublishesAll(log, entries) && |log| > MAX_EVENTS && n <= 5
    requires OnPage(Reads(Pager(log), ledger)(n), n)
    ensures var rows := Reads(Pager(log), ledger)(n).rows;
      HasRead(rows, log, 0, EVENT_PAGE_LIMIT * n) && |rows| == EVENT_PAGE_LIMIT * n
  {
    PagerServes(log);
    AfterTracks(Pager(log), log, Place, ledger, n);
    var end := EVENT_PAGE_LIMIT * n;
    SlicePublishes(log, entries, 0, end);
    PublishedRows(log[0..end], entries[0..end]);
  }

  lemma FiveRequests(log: seq<RawEvent>, entries: seq<V.LogEntry>, ledger: int)
    requires PublishesAll(log, entries) && |log| > MAX_EVENTS
    requires forall i :: 0 <= i < MAX_EVENTS ==> Printable(entries[i])
    ensures Requests(Pager(log), ledger) == 5
  {
    forall n: nat | n <= 5
      ensures Ends(Reads(Pager(log), ledger)(n), n) <==> n == 5
    {
      LongReadGoesOn(log, entries, ledger, n);
      RowsOfRead(log, entries, ledger, n);
    }
    var r := Requests(Pager(log), ledger);
    assert Ends(Reads(Pager(log), ledger)(5), 5) && Reads(Pager(log), ledger)(5) == After(Pager(log), ledger, 5);
    assert Ends(Reads(Pager(log), ledger)(r), r);
  }

  /** The read goes forward from the start ledger: of a longer log it has the first thousand events and no more. */
  lemma LimitDropsTheNewest(log: seq<RawEvent>, entries: seq<V.LogEntry>, latest: int)
    requires PublishesAll(log, entries) && |log| > MAX_EVENTS
    requires forall i :: 0 <= i < MAX_EVENTS ==> Printable(entries[i])
    ensures var read := NetworkRead(Some(latest), Pager(log));
      read.Rows? && HasRead(read.rows, log, 0, MAX_EVENTS) && |read.rows| == MAX_EVENTS
  {
    var ledger := FirstLedger(latest);
    FiveRequests(log, entries, ledger);
    LongReadGoesOn(log, entries, ledger, 5);
    RowsOfRead(log, entries, ledger, 5);
    assert Final(Pager(log), ledger) == Reads(Pager(log), ledger)(5);
  }

  // ------------------------------------------------------------------ one vault and many deposits

  function InitCall(): V.Action {
    V.Invoke(V.Init("token"), {})
  }

  function CreateCall(who: Address, unlock: U64): V.Action {
    V.Invoke(V.CreateVault(who, "v", 1, unlock), {who})
  }

  function DepositCall(who: Address): V.Action {
    V.Invoke(V.Deposit(who, 0, 1), {who})
  }

  /** One vault, and `n` deposits of one stroop each. */
  function Deposits(who: Address, unlock: U64, n: nat): (acts: seq<V.Action>)
    ensures |acts| == n + 2
  {
    if n == 0 then [InitCall(), CreateCall(who, unlock)] else Deposits(who, unlock, n - 1) + [DepositCall(who)]
  }

  /** `e` holds one unpaid vault with `n + 1` stroops in it, and the log has `n + 1` entries that can be printed. */
  ghost predicate OneVault(e: V.State, s: V.State, who: Address, unlock: U64, n: nat) {
    && n < I128_MAX
    && e.vaults == map[0 := V.Vault(0, who, "v", (n + 1) as I128, unlock, s.now, false)]
    && e.now == s.now && e.self == s.self && e.token.Some? && Bal(e.ledger, who) == Bal(s.ledger, who) - (n + 1)
    && |e.log| == n + 1 && forall i :: 0 <= i < |e.log| ==> Printable(e.log[i])
  }

  lemma VaultIsCreated(s: V.State, who: Address, unlock: U64)
    requires V.Initial(s) && who != s.self && 1 <= Bal(s.ledger, who)
    requires s.now < unlock <= MAX_DATE_SECONDS
    ensures OneVault(V.Run(s, Deposits(who, unlock, 0)), s, who, unlock, 0)
    ensures V.Run(s, Deposits(who, unlock, 0)).log == [V.LogEntry(s.now, V.Created(who, 0, 1, unlock))]
  {
    var init, create := InitCall(), CreateCall(who, unlock);
    var s1 := V.Step(s, init).0;
    assert [init, create][..1] == [init] && [init][..0] == [];
    assert V.Run(s, [init]) == s1;
    VaultInvariants.RunKeepsInv(s, [init]);
    VaultInvariants.CreateSucceedsIff(s1, who, "v", 1, unlock, {who});
    assert V.Run(s, [init, create]) == V.Step(s1, create).0;
  }

  lemma DepositAdds(e: V.State, s: V.State, who: Address, unlock: U64, n: nat)
    requires VaultInvariants.Inv(e) && OneVault(e, s, who, unlock, n)
    requires who != s.self && n + 1 < I128_MAX && 1 <= Bal(e.ledger, who)
    ensures OneVault(V.Step(e, DepositCall(who)).0, s, who, unlock, n + 1)
  {
    VaultInvariants.DepositSucceedsIff(e, who, 0, 1, {who});
  }

  /** The state after `n` deposits. */
  function Grown(s: V.State, who: Address, unlock: U64): nat -> V.State {
    (n: nat) => V.Run(s, Deposits(who, unlock, n))
  }

  lemma RunNext(s: V.State, acts: seq<V.Action>, a: V.Action)
    ensures V.Run(s, acts + [a]) == V.Step(V.Run(s, acts), a).0
  {
    assert (acts + [a])[..|acts|] == acts;
  }

  lemma DepositNext(s: V.State, acts: seq<V.Action>, who: Address, unlock: U64, n: nat)
    requires V.Initial(s) && who != s.self && n + 1 < Bal(s.ledger, who) && n + 1 < I128_MAX
    requires OneVault(V.Run(s, acts), s, who, unlock, n)
    ensures OneVault(V.Run(s, acts + [DepositCall(who)]), s, who, unlock, n + 1)
  {
    VaultInvariants.RunKeepsInv(s, acts);
    DepositAdds(V.Run(s, acts), s, who, unlock, n);
    RunNext(s, acts, DepositCall(who));
  }

  lemma OneMoreDeposit(s: V.State, who: Address, unlock: U64, n: nat)
    requires V.Initial(s) && who != s.self && n + 1 < Bal(s.ledger, who) && n + 1 < I128_MAX
    requires OneVault(Grown(s, who, unlock)(n), s, who, unlock, n)
    ensures OneVault(Grown(s, who, unlock)(n + 1), s, who, unlock, n + 1)
  {
    DepositNext(s, Deposits(who, unlock, n), who, unlock, n);
  }

  lemma {:induction false} ManyDeposits(s: V.State, who: Address, unlock: U64, n: nat)
    requires V.Initial(s) && who != s.self && n < Bal(s.ledger, who) && n < I128_MAX
    requires s.now < unlock <= MAX_DATE_SECONDS
    ensures OneVault(Grown(s, who, unlock)(n), s, who, unlock, n)
  {
    if n == 0 {
      VaultIsCreated(s, who, unlock);
    } else {
      ManyDeposits(s, who, unlock, n - 1);
      OneMoreDeposit(s, who, unlock, n - 1);
    }
  }

  /** A withdrawal after all the deposits, as soon as the vault unlocks. */
  function ThenWithdraw(who: Address, unlock: U64, n: nat): seq<V.Action> {
    Deposits(who, unlock, n) + [V.Tick(1), V.Invoke(V.Withdraw(who, 0), {who})]
  }

  lemma WithdrawalIsLast(s: V.State, acts: seq<V.Action>, who: Address, unlock: U64, n: nat)
    requires V.Initial(s) && who != s.self && unlock == s.now + 1
    requires OneVault(V.Run(s, acts), s, who, unlock, n)
    ensures var e := V.Run(s, acts + [V.Tick(1), V.Invoke(V.Withdraw(who, 0), {who})]);
      && 0 in e.vaults && e.vaults[0].withdrawn && |e.log| == n + 2 && V.Run(s, acts).log <= e.log
  {
    var tick, take := V.Tick(1), V.Invoke(V.Withdraw(who, 0), {who});
    var e1 := V.Run(s, acts);
    VaultInvariants.RunKeepsInv(s, acts);
    VaultInvariants.StepKeepsInv(e1, tick);
    RunNext(s, acts, tick);
    RunNext(s, acts + [tick], take);
    assert acts + [tick, take] == acts + [tick] + [take];
    VaultInvariants.WithdrawSucceedsIff(V.Step(e1, tick).0, who, 0, {who});
  }

  lemma SameLogAt(s: V.State, acts: seq<V.Action>, i: nat, j: nat)
    requires V.Initial(s) && i <= |acts| && j <= |acts|
    requires VaultRuns.At(s, acts, i).log == VaultRuns.At(s, acts, j).log
    ensures VaultRuns.At(s, acts, i).vaults == VaultRuns.At(s, acts, j).vaults
  {
    if i <= j {
      assert acts[..j][..i] == acts[..i];
      SameLogSameVaults(s, acts[..j], i);
    } else {
      SameLogAt(s, acts, j, i);
    }
  }

  lemma NothingBefore(s: V.State, acts: seq<V.Action>, k: nat)
    requires V.Initial(s) && k <= |acts| && VaultRuns.At(s, acts, k).log == []
    ensures V.NextIdOf(VaultRuns.At(s, acts, k)) == 0
  {
    assert VaultRuns.At(s, acts, 0) == s;
    SameLogAt(s, acts, k, 0);
    IdsAreDense(s, acts, k);
    assert 0 !in VaultRuns.At(s, acts, k).vaults;
  }

  /** The vault as it was before the withdrawal is what a read of the first thousand entries shows. */
  lemma ThousandEntriesShow(s: V.State, acts: seq<V.Action>, raws: seq<RawEvent>, rows: seq<ParsedEvent>, n: nat,
                            o: Address, localName: string -> Option<string>, nowSec: int)
    returns (r: Row)
    requires V.Initial(s) && PublishesAll(raws, V.Run(s, acts).log) && n <= |acts|
    requires VaultRuns.At(s, acts, n).log <= V.Run(s, acts).log
    requires HasRead(rows, raws, 0, |VaultRuns.At(s, acts, n).log|)
    requires var vaults := VaultRuns.At(s, acts, n).vaults; 0 in vaults && vaults[0].owner == o
    ensures r in Aggregate(rows, o, map[], localName, nowSec)
    ensures RowShows(r, VaultRuns.At(s, acts, n).vaults[0], nowSec)
  {
    var end := |VaultRuns.At(s, acts, n).log|;
    var k, l := FetchedRowsRefineContract(s, acts, raws, rows, 0, end, o, map[], localName, nowSec);
    NothingBefore(s, acts, k);
    SameLogAt(s, acts, l, n);
    var e := VaultRuns.At(s, acts, l);
    assert HasRow(Aggregate(rows, o, map[], localName, nowSec), e.vaults[0], map[], localName, nowSec);
    r :| r in Aggregate(rows, o, map[], localName, nowSec) && RowFits(r, e.vaults[0], map[], localName, nowSec);
  }

  /**
    * A run of 1001 events, one vault with a thousand stroops and then its withdrawal. The read takes the first
    * thousand, so the vault is shown as not withdrawn with everything still in it, although it is paid out.
    */
  lemma NewestWithdrawalIsDropped(s: V.State, who: Address, raws: seq<RawEvent>, latest: int,
                                  localName: string -> Option<string>, nowSec: int)
    returns (r: Row)
    requires V.Initial(s) && who != s.self && Bal(s.ledger, who) >= 1_000 && s.now + 1 <= MAX_DATE_SECONDS
    requires PublishesAll(raws, V.Run(s, ThenWithdraw(who, s.now + 1, 999)).log)
    ensures var e := V.Run(s, ThenWithdraw(who, s.now + 1, 999)); 0 in e.vaults && e.vaults[0].withdrawn
    ensures NetworkRead(Some(latest), Pager(raws)).Rows?
    ensures r in Aggregate(NetworkRead(Some(latest), Pager(raws)).rows, who, map[], localName, nowSec)
    ensures r.vaultId == ToText(0) && r.status != Withdrawn && r.balance == 1_000
  {
    var unlock := s.now + 1;
    var front, acts := Deposits(who, unlock, 999), ThenWithdraw(who, unlock, 999);
    ManyDeposits(s, who, unlock, 999);
    WithdrawalIsLast(s, front, who, unlock, 999);
    assert acts[..|front|] == front;
    var before, entries := V.Run(s, front), V.Run(s, acts).log;
    assert forall i :: 0 <= i < MAX_EVENTS ==> entries[i] == before.log[i];
    LimitDropsTheNewest(raws, entries, latest);
    r := ThousandEntriesShow(s, acts, raws, NetworkRead(Some(latest), Pager(raws)).rows, |front|,
                             who, localName, nowSec);
  }

  // ------------------------------------------------------------------ an unlock time beyond 2100

  lemma ShortLogIsRead(log: seq<RawEvent>, latest: int)
    requires |log| <= EVENT_PAGE_LIMIT && ParseAll(log).Some?
    ensures NetworkRead(Some(latest), Pager(log)) == Rows(ParseAll(log).value)
  {
    var ledger, server := FirstLedger(latest), Pager(log);
    assert log[0..] == log;
    assert !Ends(After(server, ledger, 0), 0);
    assert After(server, ledger, 1) == Turn(server, 0, After(server, ledger, 0));
    assert Ends(After(server, ledger, 1), 1);
    assert Requests(server, ledger) == 1;
    assert [] + ParseAll(log).value == ParseAll(log).value;
  }

  function OneAccum(e: ParsedEvent): Accum {
    Accum(e.vaultId, e.amount, DateNoteToSec(e.note), e.timestamp, false)
  }

  /** What is replayed of a single "create" event. */
  function CreatedRow(e: ParsedEvent, o: Address, localName: string -> Option<string>, nowSec: int): Row {
    RowOf(OneAccum(e), o, None, localName(e.vaultId), nowSec)
  }

  lemma OneOwnEvent(e: ParsedEvent)
    ensures OwnEvents([e], e.owner) == [e]
  {
    assert [e][..0] == [];
  }

  lemma OneReplayed(e: ParsedEvent)
    requires e.kind == Create
    ensures ReplayAll([e]) == Accums([e.vaultId], map[e.vaultId := OneAccum(e)])
  {
    assert [e][..0] == [];
    assert ReplayOne(NO_ACCUMS, e) == Accums([e.vaultId], map[e.vaultId := OneAccum(e)]);
  }

  lemma OneRow(a: Accum, o: Address, localName: string -> Option<string>, nowSec: int)
    ensures var m := Accums([a.vaultId], map[a.vaultId := a]);
      WellKeyed(m) && Sort(RowsOf(m, o, map[], localName, nowSec), NewerRow) ==
                      [RowOf(a, o, None, localName(a.vaultId), nowSec)]
  {
    var rows := RowsOf(Accums([a.vaultId], map[a.vaultId := a]), o, map[], localName, nowSec);
    assert rows == [RowOf(a, o, None, localName(a.vaultId), nowSec)];
    assert rows[..0] == [];
  }

  lemma OneCreateReplayed(e: ParsedEvent, o: Address, localName: string -> Option<string>, nowSec: int)
    requires e.kind == Create && e.owner == o
    ensures Aggregate([e], o, map[], localName, nowSec) == [CreatedRow(e, o, localName, nowSec)]
  {
    OneOwnEvent(e);
    OneReplayed(e);
    OneRow(OneAccum(e), o, localName, nowSec);
  }

  /** A row without an unlock time and without a record is not listed. */
  lemma ZeroRowIsDropped(row: Row, o: Address, nowSec: int)
    requires LooksZero(row)
    ensures Compose(o, [row], [], nowSec) == []
  {
    assert [row][..0] == [];
    assert LiveRows([row], map[], nowSec) == [];
  }

  /** A vault that unlocks in 2101 is on chain, unpaid, and fetched, and the list is empty. */
  lemma FarVaultIsNotListed(s: V.State, who: Address, raws: seq<RawEvent>, latest: int,
                            localName: string -> Option<string>, nowSec: int)
    requires V.Initial(s) && who != s.self && Bal(s.ledger, who) >= 1 && s.now < 4_133_980_800
    requires PublishesAll(raws, V.Run(s, Deposits(who, 4_133_980_800, 0)).log)
    ensures var e := V.Run(s, Deposits(who, 4_133_980_800, 0));
      0 in e.vaults && e.vaults[0].owner == who && !e.vaults[0].withdrawn
    ensures NetworkRead(Some(latest), Pager(raws)).Rows?
    ensures var live := Aggregate(NetworkRead(Some(latest), Pager(raws)).rows, who, MetaById([]), localName, nowSec);
      Compose(who, live, [], nowSec) == []
  {
    VaultIsCreated(s, who, 4_133_980_800);
    var entries := V.Run(s, Deposits(who, 4_133_980_800, 0)).log;
    ParseAllPublished(raws, entries);
    ShortLogIsRead(raws, latest);
    var rows := ParseAll(raws).value;
    assert Shows(rows[0], entries[0]) && rows == [rows[0]];
    OneCreateReplayed(rows[0], who, localName, nowSec);
    ZeroRowIsDropped(CreatedRow(rows[0], who, localName, nowSec), who, nowSec);
  }
}
