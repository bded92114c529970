/**
  * Replaying any stretch of the log the contract emits gives back the contract's own vaults, with each unlock
  * time floored to UTC midnight.
  */
module ReplayRefinement {
  import opened Base
  import opened Decimal
  import opened Calendar
  import opened Events
  import opened Rows
  import opened Replay
  import opened StableSort
  import V = VaultModel
  import TokenLedger
  import VaultInvariants
  import VaultRuns

  /** The replayed unlock time `x` of a vault whose unlock time on chain is `u`. */
  ghost predicate UnlockShown(x: nat, u: nat) {
    && (Showable(u) ==> x == Midnight(u))
    && (u < 1_577_836_800 ==> x == 0)
    && (u >= 4_133_980_800 ==> x <= 4_133_894_400)
  }

  /** `a` is vault `v` as the events show it. */
  ghost predicate MirrorsVault(a: Accum, v: V.Vault) {
    && a.vaultId == ToText(v.vaultId)
    && a.balance == v.balance && a.withdrawn == v.withdrawn && a.created == v.created
    && UnlockShown(a.unlock, v.unlock)
  }

  /** Where vault `i` stands in the mirror. */
  ghost predicate MirrorsAt(m: Accums, s: V.State, o: Address, from: nat, i: nat) {
    && (ToText(i) in m.at <==> from <= i && i in s.vaults && s.vaults[i].owner == o)
    && (ToText(i) in m.at ==> MirrorsVault(m.at[ToText(i)], s.vaults[i]))
  }

  /** `m` holds exactly `o`'s vaults with ids from `from` on, each as it stands in `s`. */
  ghost predicate Mirrors(m: Accums, s: V.State, o: Address, from: nat) {
    && (forall k :: k in m.at ==> k == ToText(ParseInt(k)))
    && (forall i: nat :: MirrorsAt(m, s, o, from, i))
  }

  /** Flooring never shows a later unlock, and shows the right midnight exactly for the years it can print. */
  lemma UnlockShownMeans(x: nat, u: nat)
    requires UnlockShown(x, u)
    ensures x <= u
    ensures x == Midnight(u) <==> Showable(u) || u < DAY_SECONDS
    ensures u - x < DAY_SECONDS <==> Showable(u) || u < DAY_SECONDS
  {
  }

  lemma ExtendShown(x: nat, u: nat, u': nat, read: nat)
    requires UnlockShown(x, u) && u < u'
    requires read == if Showable(u') then Midnight(u') else 0
    ensures UnlockShown(if read > x then read else x, u')
  {
  }

  // ------------------------------------------------------------------ one action

  /** The entry an action appends to the log, if any. */
  function NewEntry(s: V.State, a: V.Action): Option<V.LogEntry> {
    var s' := V.Step(s, a).0;
    if |s'.log| > |s.log| then Some(s'.log[|s'.log| - 1]) else None
  }

  /** The entries an action adds to the log: one or none. */
  function Added(s: V.State, a: V.Action): seq<V.LogEntry> {
    if NewEntry(s, a).Some? then [NewEntry(s, a).value] else []
  }

  lemma StepAppends(s: V.State, a: V.Action)
    ensures var s' := V.Step(s, a).0;
      s'.log == s.log + Added(s, a)
    ensures NewEntry(s, a).None? ==> V.Step(s, a).0.vaults == s.vaults
  {
  }

  /** The log entry accounts for the whole change of the vault table. */
  ghost predicate Accounts(s: V.State, entry: V.LogEntry, s': V.State) {
    var id := entry.event.id;
    && id in s'.vaults && s'.vaults == s.vaults[id := s'.vaults[id]]
    && s'.vaults[id].owner == entry.event.who
    && match entry.event
       case Created(who, _, amount, unlock) =>
         id !in s.vaults
         && s'.vaults[id] == V.Vault(id, who, s'.vaults[id].name, amount, unlock, entry.at, false)
       case Deposited(_, _, amount) =>
         id in s.vaults && s'.vaults[id] == s.vaults[id].(balance := s'.vaults[id].balance)
         && s'.vaults[id].balance == s.vaults[id].balance + amount
       case Extended(_, _, unlock) =>
         id in s.vaults && s'.vaults[id] == s.vaults[id].(unlock := unlock) && unlock > s.vaults[id].unlock
       case Withdrew(_, _, amount) =>
         id in s.vaults && s'.vaults[id] == s.vaults[id].(balance := 0, withdrawn := true)
         && amount == s.vaults[id].balance
  }

  /** The entry is published now, a new vault gets the next id, and the change of the table is accounted for. */
  ghost predicate AccountsNow(s: V.State, entry: V.LogEntry, s': V.State) {
    && Accounts(s, entry, s') && entry.at == s.now
    && (entry.event.Created? ==> entry.event.id == V.NextIdOf(s))
  }

  lemma CallAccounts(s: V.State, c: V.Call, signers: set<Address>)
    requires V.NextIdOf(s) !in s.vaults && NewEntry(s, V.Invoke(c, signers)).Some?
    ensures AccountsNow(s, NewEntry(s, V.Invoke(c, signers)).value, V.ApplyCall(s, c, signers).0)
  {
    match c {
      case Init(t) => assert false;
      case CreateVault(w, n, d, u) =>
      case Deposit(w, i, amount) =>
      case ExtendLock(w, i, secs) =>
      case Withdraw(w, i) =>
    }
  }

  lemma StepAccounts(s: V.State, a: V.Action)
    requires VaultInvariants.IdsDense(s) && NewEntry(s, a).Some?
    ensures AccountsNow(s, NewEntry(s, a).value, V.Step(s, a).0)
  {
    assert V.NextIdOf(s) !in s.vaults;
    if a.Invoke? {
      CallAccounts(s, a.call, a.signers);
    }
  }

  /** The vault an entry is about is mirrored after the entry is replayed. */
  lemma EntryMirrored(s: V.State, s': V.State, entry: V.LogEntry, m: Accums, row: ParsedEvent)
    requires Accounts(s, entry, s') && Shows(row, entry)
    requires var key, id := ToText(entry.event.id), entry.event.id;
      if entry.event.Created? then key !in m.at
      else key in m.at && MirrorsVault(m.at[key], s.vaults[id])
    ensures var key, id := ToText(entry.event.id), entry.event.id;
      key in ReplayOne(m, row).at && MirrorsVault(ReplayOne(m, row).at[key], s'.vaults[id])
  {
    var id := entry.event.id;
    if entry.event.Extended? {
      ExtendShown(m.at[ToText(id)].unlock, s.vaults[id].unlock, entry.event.unlock, DateNoteToSec(row.note));
    }
  }

  lemma EntryKeepsMirrorAt(s: V.State, s': V.State, entry: V.LogEntry, m: Accums, row: ParsedEvent,
                           o: Address, from: nat, i: nat)
    requires Accounts(s, entry, s') && Shows(row, entry) && MirrorsAt(m, s, o, from, i)
    requires entry.event.Created? ==> from <= entry.event.id
    ensures MirrorsAt(if row.owner == o then ReplayOne(m, row) else m, s', o, from, i)
  {
    var id := entry.event.id;
    ToTextInjective(i, id);
    if i == id && row.owner == o && from <= id {
      EntryMirrored(s, s', entry, m, row);
    }
  }

  lemma ReplayOneKeys(m: Accums, row: ParsedEvent)
    ensures ReplayOne(m, row).at.Keys <= m.at.Keys + {row.vaultId}
  {
  }

  /** Replaying an entry keeps the mirror, for the entry's own vault and every other. */
  lemma EntryKeepsMirror(s: V.State, s': V.State, entry: V.LogEntry, m: Accums, row: ParsedEvent,
                         o: Address, from: nat)
    requires Accounts(s, entry, s') && Shows(row, entry) && Mirrors(m, s, o, from)
    requires entry.event.Created? ==> from <= entry.event.id
    ensures Mirrors(if row.owner == o then ReplayOne(m, row) else m, s', o, from)
  {
    var m' := if row.owner == o then ReplayOne(m, row) else m;
    ToTextRoundTrip(entry.event.id);
    ReplayOneKeys(m, row);
    forall i: nat
      ensures MirrorsAt(m', s', o, from, i)
    {
      assert MirrorsAt(m, s, o, from, i);
      EntryKeepsMirrorAt(s, s', entry, m, row, o, from, i);
    }
  }

  // ------------------------------------------------------------------ whole windows

  /** The log entries published between action `k` and action `l` of a run. */
  function Window(s: V.State, acts: seq<V.Action>, k: nat, l: nat): seq<V.LogEntry>
    requires k <= l <= |acts|
  {
    var start, end := VaultRuns.At(s, acts, k).log, VaultRuns.At(s, acts, l).log;
    if |start| <= |end| then end[|start|..] else []
  }

  lemma StepGrows(s: V.State, a: V.Action)
    requires VaultInvariants.IdsDense(s)
    ensures s.log <= V.Step(s, a).0.log
    ensures V.NextIdOf(s) <= V.NextIdOf(V.Step(s, a).0)
  {
    StepAppends(s, a);
  }

  lemma IdsAreDense(s: V.State, acts: seq<V.Action>, k: nat)
    requires V.Initial(s) && k <= |acts|
    ensures VaultInvariants.IdsDense(VaultRuns.At(s, acts, k))
  {
    VaultInvariants.RunKeepsInv(s, acts[..k]);
  }

  lemma AtGrows(s: V.State, acts: seq<V.Action>, k: nat)
    requires V.Initial(s) && k < |acts|
    ensures VaultRuns.At(s, acts, k).log <= VaultRuns.At(s, acts, k + 1).log
    ensures V.NextIdOf(VaultRuns.At(s, acts, k)) <= V.NextIdOf(VaultRuns.At(s, acts, k + 1))
  {
    IdsAreDense(s, acts, k);
    VaultRuns.AtNext(s, acts, k);
    StepGrows(VaultRuns.At(s, acts, k), acts[k]);
  }

  /** The log only ever grows at its end, by at most one entry an action, and ids only grow. */
  lemma {:induction false} LogGrows(s: V.State, acts: seq<V.Action>, k: nat, l: nat)
    requires V.Initial(s) && k <= l <= |acts|
    ensures VaultRuns.At(s, acts, k).log <= VaultRuns.At(s, acts, l).log
    ensures V.NextIdOf(VaultRuns.At(s, acts, k)) <= V.NextIdOf(VaultRuns.At(s, acts, l))
    decreases l - k
  {
    if k < l {
      LogGrows(s, acts, k, l - 1);
      AtGrows(s, acts, l - 1);
    }
  }

  /** So every position of the log is where some action left it: every contiguous stretch is a window. */
  lemma {:induction false} EveryPositionIsReached(s: V.State, acts: seq<V.Action>, n: nat) returns (k: nat)
    requires V.Initial(s) && n <= |V.Run(s, acts).log|
    ensures k <= |acts| && VaultRuns.At(s, acts, k).log == V.Run(s, acts).log[..n]
  {
    assert acts[..|acts|] == acts;
    if n == |V.Run(s, acts).log| {
      k := |acts|;
    } else {
      var before := acts[..|acts| - 1];
      StepAppends(V.Run(s, before), acts[|acts| - 1]);
      k := EveryPositionIsReached(s, before, n);
      assert before[..k] == acts[..k];
    }
  }

  /** One more action, with the row that shows its log entry if it has one. */
  lemma StepKeepsMirror(s: V.State, a: V.Action, m: Accums, row: ParsedEvent, o: Address, from: nat)
    requires VaultInvariants.IdsDense(s) && from <= V.NextIdOf(s) && Mirrors(m, s, o, from)
    requires NewEntry(s, a).Some? ==> Shows(row, NewEntry(s, a).value)
    ensures Mirrors(if NewEntry(s, a).Some? && row.owner == o then ReplayOne(m, row) else m,
                    V.Step(s, a).0, o, from)
  {
    var s' := V.Step(s, a).0;
    StepAppends(s, a);
    if NewEntry(s, a).Some? {
      StepAccounts(s, a);
      EntryKeepsMirror(s, s', NewEntry(s, a).value, m, row, o, from);
    } else {
      forall i: nat
        ensures MirrorsAt(m, s', o, from, i)
      {
        assert MirrorsAt(m, s, o, from, i);
      }
    }
  }

  lemma ShowsAllFront(rows: seq<ParsedEvent>, entries: seq<V.LogEntry>)
    requires ShowsAll(rows, entries) && rows != []
    ensures ShowsAll(rows[..|rows| - 1], entries[..|rows| - 1])
    ensures Shows(rows[|rows| - 1], entries[|rows| - 1])
  {
  }

  lemma TailNext(start: seq<V.LogEntry>, b: V.State, a: V.Action)
    requires start <= b.log
    ensures var log := V.Step(b, a).0.log;
      start <= b.log <= log && log[|start|..] == b.log[|start|..] + Added(b, a)
  {
    StepAppends(b, a);
  }

  /** A window that ends one action later has that action's entry added, if it has one. */
  lemma WindowNext(s: V.State, acts: seq<V.Action>, k: nat, l: nat)
    requires V.Initial(s) && k < l <= |acts|
    ensures VaultRuns.At(s, acts, k).log <= VaultRuns.At(s, acts, l - 1).log <= VaultRuns.At(s, acts, l).log
    ensures V.NextIdOf(VaultRuns.At(s, acts, k)) <= V.NextIdOf(VaultRuns.At(s, acts, l - 1))
    ensures var b := VaultRuns.At(s, acts, l - 1);
      && VaultRuns.At(s, acts, l) == V.Step(b, acts[l - 1]).0
      && Window(s, acts, k, l) == Window(s, acts, k, l - 1) + Added(b, acts[l - 1])
  {
    var b := VaultRuns.At(s, acts, l - 1);
    LogGrows(s, acts, k, l - 1);
    VaultRuns.AtNext(s, acts, l - 1);
    TailNext(VaultRuns.At(s, acts, k).log, b, acts[l - 1]);
  }

  lemma OneMoreOwned(rows: seq<ParsedEvent>, o: Address)
    requires rows != []
    ensures var front, row := rows[..|rows| - 1], rows[|rows| - 1];
      ReplayAll(OfOwner(rows, o)) ==
      if row.owner == o then ReplayOne(ReplayAll(OfOwner(front, o)), row) else ReplayAll(OfOwner(front, o))
  {
    var front, row := rows[..|rows| - 1], rows[|rows| - 1];
    if row.owner == o {
      assert OfOwner(rows, o) == OfOwner(front, o) + [row];
      assert (OfOwner(front, o) + [row])[..|OfOwner(front, o)|] == OfOwner(front, o);
    }
  }

  lemma EmptyWindow(s: V.State, rows: seq<ParsedEvent>, o: Address)
    requires VaultInvariants.IdsDense(s) && rows == []
    ensures Mirrors(ReplayAll(OfOwner(rows, o)), s, o, V.NextIdOf(s))
  {
  }

  /** The rows of a window, up to its last action. */
  lemma WindowFront(s: V.State, acts: seq<V.Action>, k: nat, l: nat, rows: seq<ParsedEvent>)
    requires V.Initial(s) && k < l <= |acts|
    requires VaultRuns.At(s, acts, k).log <= VaultRuns.At(s, acts, l).log
    requires ShowsAll(rows, Window(s, acts, k, l))
    ensures VaultRuns.At(s, acts, k).log <= VaultRuns.At(s, acts, l - 1).log
    ensures |Window(s, acts, k, l - 1)| <= |rows|
    ensures ShowsAll(rows[..|Window(s, acts, k, l - 1)|], Window(s, acts, k, l - 1))
  {
    WindowNext(s, acts, k, l);
    var w := Window(s, acts, k, l - 1);
    if |rows| > |w| {
      ShowsAllFront(rows, Window(s, acts, k, l));
      assert Window(s, acts, k, l)[..|rows| - 1] == w;
    } else {
      assert rows[..|w|] == rows && Window(s, acts, k, l) == w;
    }
  }

  /** A mirror of a window, carried over one more action. */
  lemma ExtendMirror(b: V.State, a: V.Action, window: seq<V.LogEntry>,
                     rows: seq<ParsedEvent>, o: Address, from: nat)
    requires VaultInvariants.IdsDense(b) && from <= V.NextIdOf(b)
    requires ShowsAll(rows, window + Added(b, a))
    requires Mirrors(ReplayAll(OfOwner(rows[..|window|], o)), b, o, from)
    ensures Mirrors(ReplayAll(OfOwner(rows, o)), V.Step(b, a).0, o, from)
  {
    if NewEntry(b, a).None? {
      assert rows[..|window|] == rows;
      var anyRow := ParsedEvent("", "", "", Create, 0, "", 0);
      StepKeepsMirror(b, a, ReplayAll(OfOwner(rows, o)), anyRow, o, from);
    } else {
      var entries, row := window + [NewEntry(b, a).value], rows[|rows| - 1];
      assert Shows(row, entries[|rows| - 1]);
      StepKeepsMirror(b, a, ReplayAll(OfOwner(rows[..|window|], o)), row, o, from);
      OneMoreOwned(rows, o);
    }
  }

  /** The same along a run. */
  lemma ExtendWindow(s: V.State, acts: seq<V.Action>, k: nat, l: nat,
                     rows: seq<ParsedEvent>, o: Address, from: nat)
    requires V.Initial(s) && k < l <= |acts| && ShowsAll(rows, Window(s, acts, k, l))
    requires from <= V.NextIdOf(VaultRuns.At(s, acts, l - 1))
    requires var n := |Window(s, acts, k, l - 1)|;
      n <= |rows| && Mirrors(ReplayAll(OfOwner(rows[..n], o)), VaultRuns.At(s, acts, l - 1), o, from)
    ensures Mirrors(ReplayAll(OfOwner(rows, o)), VaultRuns.At(s, acts, l), o, from)
  {
    WindowNext(s, acts, k, l);
    IdsAreDense(s, acts, l - 1);
    ExtendMirror(VaultRuns.At(s, acts, l - 1), acts[l - 1], Window(s, acts, k, l - 1), rows, o, from);
  }

  /** The replay of a window mirrors the contract at the window's end, for the vaults created inside it. */
  lemma {:induction false} WindowMirrors(s: V.State, acts: seq<V.Action>, k: nat, l: nat,
                                         rows: seq<ParsedEvent>, o: Address)
    requires V.Initial(s) && k <= l <= |acts|
    requires VaultRuns.At(s, acts, k).log <= VaultRuns.At(s, acts, l).log
    requires ShowsAll(rows, Window(s, acts, k, l))
    ensures Mirrors(ReplayAll(OfOwner(rows, o)), VaultRuns.At(s, acts, l), o, V.NextIdOf(VaultRuns.At(s, acts, k)))
    decreases l - k
  {
    if k == l {
      IdsAreDense(s, acts, k);
      EmptyWindow(VaultRuns.At(s, acts, k), rows, o);
    } else {
      LogGrows(s, acts, k, l - 1);
      WindowFront(s, acts, k, l, rows);
      WindowMirrors(s, acts, k, l - 1, rows[..|Window(s, acts, k, l - 1)|], o);
      ExtendWindow(s, acts, k, l, rows, o, V.NextIdOf(VaultRuns.At(s, acts, k)));
    }
  }

  // ------------------------------------------------------------------ the rows

  /** What `statusFor` answers for a vault read from the chain. */
  function StatusFor(v: V.Vault, nowSec: int): Status {
    if v.withdrawn then Withdrawn else if nowSec >= v.unlock then Unlocked else Locked
  }

  /** `r` is vault `v` as replay shows it at `nowSec`. */
  ghost predicate RowShows(r: Row, v: V.Vault, nowSec: int) {
    && r.vaultId == ToText(v.vaultId) && r.owner == v.owner
    && r.balance == v.balance && r.created == v.created
    && r.unlock >= 0 && UnlockShown(r.unlock, v.unlock)
    && r.status == StatusFor(v.(unlock := r.unlock), nowSec)
  }

  /**
    * A shown row never says "locked" once the chain says "unlocked". It may say "unlocked" early, by less than a
    * day for every unlock time in the years 2020 to 2100.
    */
  lemma StatusIsNeverLate(r: Row, v: V.Vault, nowSec: int)
    requires RowShows(r, v, nowSec)
    ensures StatusFor(v, nowSec) == Unlocked ==> r.status == Unlocked
    ensures r.status == Withdrawn <==> StatusFor(v, nowSec) == Withdrawn
    ensures r.status == Unlocked && StatusFor(v, nowSec) == Locked && Showable(v.unlock) ==>
            0 < v.unlock - nowSec <= 86_399
  {
    UnlockShownMeans(r.unlock, v.unlock);
  }

  lemma ChainOrderIsSorted(rows: seq<ParsedEvent>, entries: seq<V.LogEntry>, o: Address)
    requires ShowsAll(rows, entries)
    requires forall i, j :: 0 <= i < j < |entries| ==> entries[i].at <= entries[j].at
    ensures OwnEvents(rows, o) == OfOwner(rows, o)
  {
    forall i, j | 0 <= i < j < |rows|
      ensures !Earlier(rows[j], rows[i])
    {
      assert Shows(rows[i], entries[i]) && Shows(rows[j], entries[j]);
    }
    FilterKeepsSorted(rows, (e: ParsedEvent) => e.owner == o, Earlier);
    SortKeepsSorted(OfOwner(rows, o), Earlier);
  }

  /**
    * `r` is what the events show of vault `v`, completed by the backend's record `m` of it: the record's balance and
    * unlock time win if it has them, its "withdrawn" counts as much as the events', its dates fill in a missing
    * creation time, and its name comes before the local one.
    */
  ghost predicate Completes(r: Row, v: V.Vault, m: RemoteMeta, localName: Option<string>, nowSec: int) {
    var over := v.withdrawn || m.chainStatus == Some(WithdrawnOnChain);
    && r.balance == (if over then 0 else if m.balance.Some? then m.balance.value else v.balance)
    && (if m.unlock.Some? && m.unlock.value > 0 then r.unlock == m.unlock.value
        else r.unlock >= 0 && UnlockShown(r.unlock, v.unlock))
    && r.created == (if v.created > 0 then v.created
                     else if m.createdAt.Some? then m.createdAt.value
                     else if m.updatedAt.Some? then m.updatedAt.value else 0)
    && r.name == (if HasText(m.name) then m.name.value
                  else if HasText(localName) then localName.value else "Vault #" + ToText(v.vaultId))
    && r.status == (if over then Withdrawn else if nowSec >= r.unlock then Unlocked else Locked)
  }

  /** Without a record `r` is vault `v` as replay shows it, under its local name. */
  ghost predicate RowFits(r: Row, v: V.Vault, metas: map<string, RemoteMeta>, localName: string -> Option<string>,
                          nowSec: int)
  {
    var id := ToText(v.vaultId);
    && r.vaultId == id && r.owner == v.owner
    && if id in metas then Completes(r, v, metas[id], localName(id), nowSec)
       else RowShows(r, v, nowSec)
            && r.name == if HasText(localName(id)) then localName(id).value else "Vault #" + id
  }

  /** Vault `id` is one of `o`'s, with an id from `from` on. */
  predicate Owned(s: V.State, o: Address, from: nat, id: nat) {
    from <= id && id in s.vaults && s.vaults[id].owner == o
  }

  ghost predicate ShowsVault(r: Row, s: V.State, o: Address, from: nat, metas: map<string, RemoteMeta>,
                             localName: string -> Option<string>, nowSec: int)
  {
    exists id: nat :: Owned(s, o, from, id) && RowFits(r, s.vaults[id], metas, localName, nowSec)
  }

  ghost predicate HasRow(rows: seq<Row>, v: V.Vault, metas: map<string, RemoteMeta>,
                         localName: string -> Option<string>, nowSec: int)
  {
    exists r :: r in rows && RowFits(r, v, metas, localName, nowSec)
  }

  /** Every row is one of the vaults, and every vault has its row. */
  ghost predicate RowsAreVaults(rows: seq<Row>, s: V.State, o: Address, from: nat, metas: map<string, RemoteMeta>,
                                localName: string -> Option<string>, nowSec: int)
  {
    && (forall r {:trigger ShowsVault(r, s, o, from, metas, localName, nowSec)} :: r in rows ==>
          ShowsVault(r, s, o, from, metas, localName, nowSec))
    && (forall id: nat {:trigger HasRow(rows, s.vaults[id], metas, localName, nowSec)} :: Owned(s, o, from, id) ==>
          HasRow(rows, s.vaults[id], metas, localName, nowSec))
  }

  lemma AccumRow(a: Accum, v: V.Vault, metas: map<string, RemoteMeta>, localName: string -> Option<string>,
                 nowSec: int)
    requires MirrorsVault(a, v) && (v.withdrawn ==> v.balance == 0)
    ensures var id := ToText(v.vaultId);
      RowFits(RowOf(a, v.owner, Lookup(metas, id), localName(id), nowSec), v, metas, localName, nowSec)
  {
  }

  /** Row `i` is a vault's. */
  lemma RowIsVault(m: Accums, s: V.State, o: Address, from: nat, metas: map<string, RemoteMeta>,
                   localName: string -> Option<string>, nowSec: int, i: nat)
    returns (id: nat)
    requires VaultInvariants.Inv(s) && WellKeyed(m) && Mirrors(m, s, o, from) && i < |m.order|
    ensures m.order[i] == ToText(id) && Owned(s, o, from, id)
    ensures RowFits(RowsOf(m, o, metas, localName, nowSec)[i], s.vaults[id], metas, localName, nowSec)
  {
    id := ParseInt(m.order[i]);
    assert m.order[i] in m.at && m.order[i] == ToText(id);
    assert MirrorsAt(m, s, o, from, id);
    AccumRow(m.at[m.order[i]], s.vaults[id], metas, localName, nowSec);
  }

  lemma ReplayedRows(m: Accums, s: V.State, o: Address, from: nat, metas: map<string, RemoteMeta>,
                     localName: string -> Option<string>, nowSec: int)
    requires VaultInvariants.Inv(s) && WellKeyed(m) && Mirrors(m, s, o, from)
    ensures RowsAreVaults(RowsOf(m, o, metas, localName, nowSec), s, o, from, metas, localName, nowSec)
  {
    var plain := RowsOf(m, o, metas, localName, nowSec);
    forall r | r in plain
      ensures ShowsVault(r, s, o, from, metas, localName, nowSec)
    {
      var i :| 0 <= i < |plain| && r == plain[i];
      var id := RowIsVault(m, s, o, from, metas, localName, nowSec, i);
    }
    forall id: nat | Owned(s, o, from, id)
      ensures HasRow(plain, s.vaults[id], metas, localName, nowSec)
    {
      assert MirrorsAt(m, s, o, from, id);
      assert ToText(id) in m.order;
      var i :| 0 <= i < |m.order| && m.order[i] == ToText(id);
      var id' := RowIsVault(m, s, o, from, metas, localName, nowSec, i);
      ToTextInjective(id, id');
      assert plain[i] in plain;
    }
  }

  lemma SortedRows(rows: seq<Row>, s: V.State, o: Address, from: nat, metas: map<string, RemoteMeta>,
                   localName: string -> Option<string>, nowSec: int)
    requires RowsAreVaults(rows, s, o, from, metas, localName, nowSec)
    ensures RowsAreVaults(Sort(rows, NewerRow), s, o, from, metas, localName, nowSec)
  {
    var sorted := Sort(rows, NewerRow);
    SameElements(rows, NewerRow);
    forall r | r in sorted
      ensures ShowsVault(r, s, o, from, metas, localName, nowSec)
    {
      assert r in rows;
    }
    forall id: nat | Owned(s, o, from, id)
      ensures HasRow(sorted, s.vaults[id], metas, localName, nowSec)
    {
      assert HasRow(rows, s.vaults[id], metas, localName, nowSec);
      var r :| r in rows && RowFits(r, s.vaults[id], metas, localName, nowSec);
      assert r in sorted;
    }
  }

  lemma RowsOfAreDistinct(m: Accums, o: Address, metas: map<string, RemoteMeta>,
                          localName: string -> Option<string>, nowSec: int)
    requires WellKeyed(m)
    ensures DistinctIds(RowsOf(m, o, metas, localName, nowSec))
  {
    var rows := RowsOf(m, o, metas, localName, nowSec);
    forall i | 0 <= i < |rows|
      ensures rows[i].vaultId == m.order[i]
    {
      assert m.order[i] in m.at;
    }
  }

  /**
    * Replay refines the contract. Take any run and any stretch of its event log. If no unlock time in it is past
    * JavaScript's last date, reading it succeeds, and the rows replayed for an owner are exactly the owner's vaults
    * created inside the stretch, each once, newest first: as the events show them at the stretch's end, completed
    * by the backend's records, and where there is no record with the on-chain balance, creation time and
    * withdrawn flag.
    */
  lemma ReplayRefinesContract(s: V.State, acts: seq<V.Action>, k: nat, l: nat, raws: seq<RawEvent>, o: Address,
                              metas: map<string, RemoteMeta>, localName: string -> Option<string>, nowSec: int)
    requires V.Initial(s) && k <= l <= |acts|
    requires PublishesAll(raws, Window(s, acts, k, l))
    ensures ParseAll(raws).Some? <==> AllPrintable(Window(s, acts, k, l))
    ensures ParseAll(raws).Some? ==>
      var rows := Aggregate(ParseAll(raws).value, o, metas, localName, nowSec);
      var from := V.NextIdOf(VaultRuns.At(s, acts, k));
      && RowsAreVaults(rows, VaultRuns.At(s, acts, l), o, from, metas, localName, nowSec)
      && DistinctIds(rows) && Sorted(rows, NewerRow)
  {
    LogGrows(s, acts, k, l);
    ParseAllPublished(raws, Window(s, acts, k, l));
    if ParseAll(raws).Some? {
      var evs, from, end :=
        ParseAll(raws).value, V.NextIdOf(VaultRuns.At(s, acts, k)), VaultRuns.At(s, acts, l);
      var m := ReplayAll(OfOwner(evs, o));
      WindowMirrors(s, acts, k, l, evs, o);
      VaultInvariants.RunKeepsInv(s, acts[..l]);
      ChainOrderIsSorted(evs, Window(s, acts, k, l), o);
      ReplayIsWellKeyed(OfOwner(evs, o));
      var plain := RowsOf(m, o, metas, localName, nowSec);
      ReplayedRows(m, end, o, from, metas, localName, nowSec);
      RowsOfAreDistinct(m, o, metas, localName, nowSec);
      SortSorts(plain, NewerRow);
      SortedRows(plain, end, o, from, metas, localName, nowSec);
      SortKeepsDistinct(plain, NewerRow);
    }
  }

  lemma SlicePublishes(raws: seq<RawEvent>, entries: seq<V.LogEntry>, i: nat, j: nat)
    requires PublishesAll(raws, entries) && i <= j <= |raws|
    ensures PublishesAll(raws[i..j], entries[i..j])
  {
    var part, partEntries := raws[i..j], entries[i..j];
    forall n | 0 <= n < |part|
      ensures Publishes(part[n], partEntries[n])
    {
      assert Publishes(raws[i + n], entries[i + n]);
    }
  }

  /** Any slice of a run's log is the window between two of its actions. */
  lemma SliceIsWindow(s: V.State, acts: seq<V.Action>, i: nat, j: nat) returns (k: nat, l: nat)
    requires V.Initial(s) && i <= j <= |V.Run(s, acts).log|
    ensures k <= l <= |acts|
    ensures VaultRuns.At(s, acts, k).log == V.Run(s, acts).log[..i]
    ensures VaultRuns.At(s, acts, l).log == V.Run(s, acts).log[..j]
    ensures Window(s, acts, k, l) == V.Run(s, acts).log[i..j]
  {
    l := EveryPositionIsReached(s, acts, j);
    k := EveryPositionIsReached(s, acts[..l], i);
    assert acts[..l][..k] == acts[..k];
    var log := V.Run(s, acts).log;
    assert log[..j][..i] == log[..i];
  }

  /**
    * The contract accepts unlock times no JavaScript date can hold. One such vault, created by anyone, and every
    * read of a window that contains its event fails.
    */
  lemma UnreadableUnlockIsReachable(s: V.State, who: Address, raws: seq<RawEvent>)
    requires V.Initial(s) && who != s.self && s.now <= MAX_DATE_SECONDS
    requires 1 <= TokenLedger.Bal(s.ledger, who)
    requires var acts := [V.Invoke(V.Init("token"), {}),
                          V.Invoke(V.CreateVault(who, "far", 1, MAX_DATE_SECONDS + 1), {who})];
      PublishesAll(raws, V.Run(s, acts).log)
    ensures ParseAll(raws).None?
  {
    var init, create :=
      V.Invoke(V.Init("token"), {}), V.Invoke(V.CreateVault(who, "far", 1, MAX_DATE_SECONDS + 1), {who});
    var s1 := V.Step(s, init).0;
    assert [init, create][..1] == [init] && [init][..0] == [];
    assert V.Run(s, [init]) == s1;
    VaultInvariants.RunKeepsInv(s, [init]);
    VaultInvariants.CreateSucceedsIff(s1, who, "far", 1, MAX_DATE_SECONDS + 1, {who});
    assert V.Run(s, [init, create]) == V.Step(s1, create).0;
    assert !Printable(V.Run(s, [init, create]).log[0]);
    ParseAllPublished(raws, V.Run(s, [init, create]).log);
  }

  /** An unlock in 2101 or later is read back as "unknown", so the row calls the vault unlocked from the start. */
  lemma FarUnlockReadsAsUnknown()
    ensures DateNoteToSec(UNLOCK_PREFIX + IsoDay(4_133_980_800)) == 0
  {
    assert forall k :: 0 <= k < |UNLOCK_PREFIX| ==> !IsDigit(UNLOCK_PREFIX[k]) && UNLOCK_PREFIX[k] != '-';
    NoteRoundTrip(UNLOCK_PREFIX, 4_133_980_800);
  }

  /** The unlock time a row is given: the record's, if it has one, or else the replayed one. */
  function UnlockOf(a: Accum, remote: RemoteMeta): int {
    if remote.unlock.GetOr(0) > 0 then remote.unlock.value else a.unlock
  }

  /**
    * A backend record overrules the events: an unpaid vault's row says what the chain says at every moment exactly
    * when the record does not call the vault withdrawn and the unlock time the row is given, the record's if it
    * has one, is the vault's. An extension made after the snapshot goes unseen, although its event was read.
    */
  lemma SnapshotDecidesStatus(a: Accum, v: V.Vault, remote: RemoteMeta, localName: Option<string>)
    requires MirrorsVault(a, v) && !v.withdrawn
    ensures (forall t: int :: RowOf(a, v.owner, Some(remote), localName, t).status == StatusFor(v, t)) <==>
            remote.chainStatus != Some(WithdrawnOnChain) && UnlockOf(a, remote) == v.unlock
  {
    var u := UnlockOf(a, remote);
    if remote.chainStatus == Some(WithdrawnOnChain) || u != v.unlock {
      var t: int := if u < v.unlock then u else v.unlock;
      assert RowOf(a, v.owner, Some(remote), localName, t).status != StatusFor(v, t);
    }
  }
}
