/** From the pages the RPC hands over to the vaults on chain. */
module ClientView {
  import opened Base
  import opened Events
  import opened Rows
  import opened Replay
  import opened StableSort
  import opened Paging
  import opened ReplayRefinement
  import opened Decimal
  import opened History
  import V = VaultModel
  import VaultInvariants
  import VaultRuns

  // ------------------------------------------------------------------ which moments a window stands for

  /** A state with the same log as a later one has the same vaults: every change is logged. */
  lemma {:induction false} SameLogSameVaults(s: V.State, acts: seq<V.Action>, l: nat)
    requires V.Initial(s) && l <= |acts| && VaultRuns.At(s, acts, l).log == V.Run(s, acts).log
    ensures VaultRuns.At(s, acts, l).vaults == V.Run(s, acts).vaults
    decreases |acts| - l
  {
    if l == |acts| {
      assert acts[..l] == acts;
    } else {
      LogGrows(s, acts, l, l + 1);
      LogGrows(s, acts, l + 1, |acts|);
      assert acts[..|acts|] == acts;
      VaultRuns.AtNext(s, acts, l);
      StepAppends(VaultRuns.At(s, acts, l), acts[l]);
      SameLogSameVaults(s, acts, l + 1);
    }
  }

  /**
    * Rows read from the published log between two positions, wherever they are, and replayed for an owner are that
    * owner's vaults as they stood on chain when the log ended at the second position: those created since it
    * ended at the first.
    */
  lemma FetchedRowsRefineContract(s: V.State, acts: seq<V.Action>, raws: seq<RawEvent>, fetched: seq<ParsedEvent>,
                                  start: nat, end: nat, o: Address, metas: map<string, RemoteMeta>,
                                  localName: string -> Option<string>, nowSec: int)
    returns (k: nat, l: nat)
    requires V.Initial(s) && PublishesAll(raws, V.Run(s, acts).log) && HasRead(fetched, raws, start, end)
    ensures k <= l <= |acts|
    ensures VaultRuns.At(s, acts, k).log == V.Run(s, acts).log[..start]
    ensures VaultRuns.At(s, acts, l).log == V.Run(s, acts).log[..end]
    ensures var rows := Aggregate(fetched, o, metas, localName, nowSec);
      var from := V.NextIdOf(VaultRuns.At(s, acts, k));
      && RowsAreVaults(rows, VaultRuns.At(s, acts, l), o, from, metas, localName, nowSec)
      && DistinctIds(rows) && Sorted(rows, NewerRow)
  {
    k, l := SliceIsWindow(s, acts, start, end);
    SlicePublishes(raws, V.Run(s, acts).log, start, end);
    ReplayRefinesContract(s, acts, k, l, raws[start..end], o, metas, localName, nowSec);
  }

  lemma SameVaultsSameRows(rows: seq<Row>, s: V.State, s': V.State, o: Address, from: nat,
                           metas: map<string, RemoteMeta>, localName: string -> Option<string>, nowSec: int)
    requires RowsAreVaults(rows, s, o, from, metas, localName, nowSec) && s.vaults == s'.vaults
    ensures RowsAreVaults(rows, s', o, from, metas, localName, nowSec)
  {
    forall r | r in rows
      ensures ShowsVault(r, s', o, from, metas, localName, nowSec)
    {
      assert ShowsVault(r, s, o, from, metas, localName, nowSec);
      var id: nat :| Owned(s, o, from, id) && RowFits(r, s.vaults[id], metas, localName, nowSec);
      assert Owned(s', o, from, id);
    }
    forall id: nat | Owned(s', o, from, id)
      ensures HasRow(rows, s'.vaults[id], metas, localName, nowSec)
    {
      assert Owned(s, o, from, id);
    }
  }

  /** When the read reached the end of the log, the rows are the owner's vaults as they stand now. */
  lemma RowsAreCurrent(s: V.State, acts: seq<V.Action>, raws: seq<RawEvent>, fetched: seq<ParsedEvent>,
                       start: nat, o: Address, metas: map<string, RemoteMeta>,
                       localName: string -> Option<string>, nowSec: int)
    returns (k: nat)
    requires V.Initial(s) && PublishesAll(raws, V.Run(s, acts).log) && HasRead(fetched, raws, start, |raws|)
    ensures k <= |acts| && VaultRuns.At(s, acts, k).log == V.Run(s, acts).log[..start]
    ensures var rows := Aggregate(fetched, o, metas, localName, nowSec);
      var from := V.NextIdOf(VaultRuns.At(s, acts, k));
      && RowsAreVaults(rows, V.Run(s, acts), o, from, metas, localName, nowSec)
      && DistinctIds(rows) && Sorted(rows, NewerRow)
  {
    var l;
    k, l := FetchedRowsRefineContract(s, acts, raws, fetched, start, |raws|, o, metas, localName, nowSec);
    assert V.Run(s, acts).log[..|raws|] == V.Run(s, acts).log;
    SameLogSameVaults(s, acts, l);
    var rows := Aggregate(fetched, o, metas, localName, nowSec);
    SameVaultsSameRows(rows, VaultRuns.At(s, acts, l), V.Run(s, acts), o, V.NextIdOf(VaultRuns.At(s, acts, k)),
                       metas, localName, nowSec);
  }

  /** A vault whose "create" is at a later position of the log was not there yet. */
  lemma {:induction false} CreatedLater(s: V.State, acts: seq<V.Action>, k: nat, i: nat)
    requires V.Initial(s) && k <= |acts| && |VaultRuns.At(s, acts, k).log| <= i < |V.Run(s, acts).log|
    requires V.Run(s, acts).log[i].event.Created?
    ensures var event := V.Run(s, acts).log[i].event;
      && V.NextIdOf(VaultRuns.At(s, acts, k)) <= event.id
      && event.id in V.Run(s, acts).vaults && V.Run(s, acts).vaults[event.id].owner == event.who
  {
    assert acts[..|acts|] == acts;
    var before, a := acts[..|acts| - 1], acts[|acts| - 1];
    assert before[..k] == acts[..k];
    var b := V.Run(s, before);
    VaultInvariants.RunKeepsInv(s, before);
    StepAppends(b, a);
    if i < |b.log| {
      CreatedLater(s, before, k, i);
      VaultInvariants.VaultOnlyChangesByOwner(b, a, b.log[i].event.id);
    } else {
      StepAccounts(b, a);
      LogGrows(s, before, k, |before|);
      assert before[..|before|] == before;
    }
  }

  // ------------------------------------------------------------------ how many requests a read makes

  /** A page of published events that can be read has a row for each of them. */
  lemma PageRows(page: Page, raws: seq<RawEvent>, entries: seq<V.LogEntry>, p: nat, place: Request -> nat)
    requires PublishesAll(raws, entries) && Slice(page, raws, p, place)
    ensures ParseAll(page.events).Some? ==> |ParseAll(page.events).value| == |page.events|
  {
    var end := p + |page.events|;
    assert page.events == raws[p..end];
    SlicePublishes(raws, entries, p, end);
    PublishedRows(page.events, entries[p..end]);
  }

  lemma PublishedRows(raws: seq<RawEvent>, entries: seq<V.LogEntry>)
    requires PublishesAll(raws, entries)
    ensures ParseAll(raws).Some? ==> |ParseAll(raws).value| == |raws|
  {
    ParseAllPublished(raws, entries);
  }

  lemma FiveRequestsSuffice(server: Server, raws: seq<RawEvent>, place: Request -> nat, ledger: int)
    requires Serves(server, raws, place) && Fruitful(server, raws, place, EVENT_PAGE_LIMIT)
    requires place(FromLedger(ledger)) <= |raws|
    ensures Requests(server, ledger) <= 5
  {
    if After(server, ledger, 5).Going? {
      RowsPerRequest(server, raws, place, ledger, EVENT_PAGE_LIMIT, 5);
      assert Times(200, 3) == 600 && Times(200, 5) == 1_000;
    }
    assert Ends(After(server, ledger, 5), 5);
  }

  predicate IsFull(page: Page) {
    |page.events| == EVENT_PAGE_LIMIT
  }

  /** A page that says how to go on is full, or brings the last events of the log. */
  predicate IsSteady(page: Page, log: seq<RawEvent>, p: nat) {
    IsFull(page) || (page.events != [] && ToTheEnd(page, log, p))
  }

  ghost predicate Steady(server: Server, log: seq<RawEvent>, place: Request -> nat) {
    forall n: nat, q: Request {:trigger IsSteady(server(n, q).value, log, place(q))} ::
      server(n, q).Some? && place(q) <= |log| && GoesOn(server(n, q).value, q) ==>
      IsSteady(server(n, q).value, log, place(q))
  }

  /** After `n` requests all pages were full, or all but the last, and then the read is at the end of the log. */
  ghost predicate Filling(p: Progress, log: seq<RawEvent>, place: Request -> nat, n: nat) {
    p.Going? ==>
      || |p.rows| >= Times(EVENT_PAGE_LIMIT, n)
      || (n > 0 && place(p.next) == |log| && |p.rows| >= Times(EVENT_PAGE_LIMIT, n - 1))
  }

  lemma PageFills(p: Progress, page: Page, rows: Option<seq<ParsedEvent>>, log: seq<RawEvent>,
                  place: Request -> nat, n: nat)
    requires p.Going? && Filling(p, log, place, n)
    requires rows.Some? ==> |rows.value| == |page.events|
    requires page.cursor.Some? ==> place(FromCursor(page.cursor.value)) == place(p.next) + |page.events| <= |log|
    requires GoesOn(page, p.next) ==> IsSteady(page, log, place(p.next))
    ensures Filling(Advance(p, page, rows), log, place, n + 1)
  {
  }

  lemma TurnFills(server: Server, n: nat, p: Progress, raws: seq<RawEvent>, entries: seq<V.LogEntry>,
                  place: Request -> nat)
    requires PublishesAll(raws, entries) && Serves(server, raws, place) && Steady(server, raws, place)
    requires Filling(p, raws, place, n) && (p.Going? ==> place(p.next) <= |raws|)
    ensures Filling(Turn(server, n, p), raws, place, n + 1)
  {
    if p.Going? && server(n, p.next).Some? {
      var page := server(n, p.next).value;
      assert Slice(page, raws, place(p.next), place);
      assert GoesOn(page, p.next) ==> IsSteady(page, raws, place(p.next));
      PageRows(page, raws, entries, place(p.next), place);
      PageFills(p, page, ParseAll(page.events), raws, place, n);
    }
  }

  lemma NextFills(server: Server, raws: seq<RawEvent>, entries: seq<V.LogEntry>, place: Request -> nat,
                  ledger: int, n: nat)
    requires PublishesAll(raws, entries) && Serves(server, raws, place) && Steady(server, raws, place)
    requires place(FromLedger(ledger)) <= |raws| && Filling(Reads(server, ledger)(n), raws, place, n)
    ensures Filling(Reads(server, ledger)(n + 1), raws, place, n + 1)
  {
    var p := After(server, ledger, n);
    if p.Going? {
      NextIsInside(server, raws, place, ledger, n);
    }
    TurnFills(server, n, p, raws, entries, place);
  }

  lemma {:induction false} AfterFills(server: Server, raws: seq<RawEvent>, entries: seq<V.LogEntry>,
                                      place: Request -> nat, ledger: int, n: nat)
    requires PublishesAll(raws, entries) && Serves(server, raws, place) && Steady(server, raws, place)
    requires place(FromLedger(ledger)) <= |raws|
    ensures Filling(Reads(server, ledger)(n), raws, place, n)
  {
    if n > 0 {
      AfterFills(server, raws, entries, place, ledger, n - 1);
      NextFills(server, raws, entries, place, ledger, n - 1);
    }
  }

  /** A server whose pages are full up to the last one is asked at most six times: it may give a cursor too many. */
  lemma SixRequestsSuffice(server: Server, raws: seq<RawEvent>, entries: seq<V.LogEntry>, place: Request -> nat,
                           ledger: int)
    requires PublishesAll(raws, entries) && Serves(server, raws, place) && Steady(server, raws, place)
    requires place(FromLedger(ledger)) <= |raws|
    ensures Requests(server, ledger) <= 6
  {
    AfterFills(server, raws, entries, place, ledger, 6);
    assert Times(200, 3) == 600 && Times(200, 5) == 1_000 && Times(200, 6) == 1_200;
    assert Ends(After(server, ledger, 6), 6);
  }

  // ------------------------------------------------------------------ one "create" per vault

  /** Every "create" row is of a vault with an id below `bound`, and there is at most one per vault. */
  ghost predicate CreatesBelow(rows: seq<ParsedEvent>, bound: nat) {
    forall id :: Creates(rows, id) <= 1 && (Creates(rows, id) == 1 ==> ParseInt(id) < bound)
  }

  lemma RowKeepsBound(rows: seq<ParsedEvent>, row: ParsedEvent, bound: nat, bound': nat)
    requires CreatesBelow(rows, bound) && bound <= bound'
    requires row.kind == Create ==> ParseInt(row.vaultId) == bound < bound'
    ensures CreatesBelow(rows + [row], bound')
  {
    forall id
      ensures Creates(rows + [row], id) <= 1
      ensures Creates(rows + [row], id) == 1 ==> ParseInt(id) < bound'
    {
      CreatesAppend(rows, row, id);
      assert Creates(rows, id) <= 1 && (Creates(rows, id) == 1 ==> ParseInt(id) < bound);
    }
  }

  lemma StepCreatesOnce(s: V.State, a: V.Action, rows: seq<ParsedEvent>, row: ParsedEvent)
    requires VaultInvariants.IdsDense(s) && CreatesBelow(rows, V.NextIdOf(s))
    requires NewEntry(s, a).Some? && Shows(row, NewEntry(s, a).value)
    ensures CreatesBelow(rows + [row], V.NextIdOf(V.Step(s, a).0))
  {
    StepAccounts(s, a);
    StepGrows(s, a);
    ToTextRoundTrip(NewEntry(s, a).value.event.id);
    RowKeepsBound(rows, row, V.NextIdOf(s), V.NextIdOf(V.Step(s, a).0));
  }

  lemma ExtendCreates(b: V.State, a: V.Action, window: seq<V.LogEntry>, rows: seq<ParsedEvent>)
    requires VaultInvariants.IdsDense(b)
    requires ShowsAll(rows, window + Added(b, a))
    requires CreatesBelow(rows[..|window|], V.NextIdOf(b))
    ensures CreatesBelow(rows, V.NextIdOf(V.Step(b, a).0))
  {
    var front := rows[..|window|];
    StepGrows(b, a);
    if NewEntry(b, a).Some? {
      var entries, row := window + [NewEntry(b, a).value], rows[|rows| - 1];
      assert Shows(row, entries[|rows| - 1]);
      StepCreatesOnce(b, a, front, row);
      assert rows == front + [row];
    } else {
      assert rows == front;
    }
  }

  lemma ExtendWindowCreates(s: V.State, acts: seq<V.Action>, k: nat, l: nat, rows: seq<ParsedEvent>)
    requires V.Initial(s) && k < l <= |acts| && ShowsAll(rows, Window(s, acts, k, l))
    requires var n := |Window(s, acts, k, l - 1)|;
      n <= |rows| && CreatesBelow(rows[..n], V.NextIdOf(VaultRuns.At(s, acts, l - 1)))
    ensures CreatesBelow(rows, V.NextIdOf(VaultRuns.At(s, acts, l)))
  {
    WindowNext(s, acts, k, l);
    IdsAreDense(s, acts, l - 1);
    ExtendCreates(VaultRuns.At(s, acts, l - 1), acts[l - 1], Window(s, acts, k, l - 1), rows);
  }

  lemma {:induction false} WindowCreatesOnce(s: V.State, acts: seq<V.Action>, k: nat, l: nat, rows: seq<ParsedEvent>)
    requires V.Initial(s) && k <= l <= |acts|
    requires VaultRuns.At(s, acts, k).log <= VaultRuns.At(s, acts, l).log
    requires ShowsAll(rows, Window(s, acts, k, l))
    ensures CreatesBelow(rows, V.NextIdOf(VaultRuns.At(s, acts, l)))
    decreases l - k
  {
    if k < l {
      WindowFront(s, acts, k, l, rows);
      WindowCreatesOnce(s, acts, k, l - 1, rows[..|Window(s, acts, k, l - 1)|]);
      ExtendWindowCreates(s, acts, k, l, rows);
    }
  }

  /** What is fetched of the contract's log never has two "create" rows for one vault, as the history relies on. */
  lemma FetchedCreatesOnce(s: V.State, acts: seq<V.Action>, raws: seq<RawEvent>, fetched: seq<ParsedEvent>)
    requires V.Initial(s) && PublishesAll(raws, V.Run(s, acts).log) && SomeWindow(fetched, raws)
    ensures forall id :: Creates(fetched, id) <= 1
  {
    var start: nat, end: nat :| HasRead(fetched, raws, start, end);
    var k, l := SliceIsWindow(s, acts, start, end);
    SlicePublishes(raws, V.Run(s, acts).log, start, end);
    ParseAllPublished(raws[start..end], Window(s, acts, k, l));
    WindowCreatesOnce(s, acts, k, l, fetched);
  }
}
