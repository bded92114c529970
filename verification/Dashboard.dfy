/** The dashboard's list, from the network or the contract's own state to the rows that are shown. */
module Dashboard {
  import opened Base
  import opened Decimal
  import opened Calendar
  import opened Events
  import opened Paging
  import opened Rows
  import opened Replay
  import opened StableSort
  import opened VaultList
  import opened ReplayRefinement
  import opened ClientView
  import opened ListTruth
  import V = VaultModel
  import VaultInvariants
  import VaultRuns

  // ------------------------------------------------------------------ the list from events

  /**
    * The list shows vault `v` as it should: without a record exactly when its replayed row has an unlock and a
    * creation time, and then as that row; with a record always, completed by it and sanitised.
    */
  ghost predicate IsListed(list: seq<Row>, v: V.Vault, metas: map<string, RemoteMeta>,
                           localName: string -> Option<string>, nowSec: int)
  {
    exists r :: RowFits(r, v, metas, localName, nowSec)
      && if r.vaultId in metas then Sanitise(r, metas, nowSec) in list
         else && (r in list <==> r.unlock > 0 && v.created > 0)
              && (r.vaultId in Ids(list) <==> r.unlock > 0 && v.created > 0)
  }

  ghost predicate IsUnrecordedVault(r: Row, s: V.State, o: Address, from: nat, nowSec: int) {
    exists id: nat :: Owned(s, o, from, id) && RowShows(r, s.vaults[id], nowSec)
  }

  /** Every vault is listed as it should, each once, and nothing else is but what the backend has a record of. */
  ghost predicate ListShows(list: seq<Row>, s: V.State, o: Address, from: nat, metas: map<string, RemoteMeta>,
                            localName: string -> Option<string>, nowSec: int)
  {
    && DistinctIds(list)
    && (forall id: nat {:trigger IsListed(list, s.vaults[id], metas, localName, nowSec)} :: Owned(s, o, from, id) ==>
          IsListed(list, s.vaults[id], metas, localName, nowSec))
    && (forall r {:trigger IsUnrecordedVault(r, s, o, from, nowSec)} :: r in list && r.vaultId !in metas ==>
          IsUnrecordedVault(r, s, o, from, nowSec))
  }

  lemma FitsShows(r: Row, v: V.Vault, metas: map<string, RemoteMeta>, localName: string -> Option<string>, nowSec: int)
    requires RowFits(r, v, metas, localName, nowSec)
    ensures r.vaultId == ToText(v.vaultId)
    ensures r.vaultId !in metas ==> RowShows(r, v, nowSec)
  {
  }

  lemma VaultIsListed(owner: Address, live: seq<Row>, metas: seq<RemoteMeta>, v: V.Vault,
                      localName: string -> Option<string>, nowSec: int, r: Row)
    requires DistinctIds(live) && r in live && RowFits(r, v, MetaById(metas), localName, nowSec)
    ensures IsListed(Compose(owner, live, metas, nowSec), v, MetaById(metas), localName, nowSec)
  {
    var list := Compose(owner, live, metas, nowSec);
    FitsShows(r, v, MetaById(metas), localName, nowSec);
    LiveRowIsListed(owner, live, metas, nowSec, r);
    if r.vaultId !in MetaById(metas) {
      assert r.status != Archived && (LooksZero(r) <==> r.unlock <= 0 || v.created <= 0);
    }
  }

  /** A listed row without a record is a live row as it was read. */
  lemma UnrecordedIsRead(owner: Address, live: seq<Row>, metas: seq<RemoteMeta>, nowSec: int, r: Row)
    requires r in Compose(owner, live, metas, nowSec) && r.vaultId !in MetaById(metas)
    ensures r in live
  {
    var byId := MetaById(metas);
    var shown := LiveRows(live, byId, nowSec);
    SameElements(Parts(owner, live, metas, nowSec), ShownBefore);
    if r in shown {
      ShownFrom(live, byId, nowSec, r);
      LiveRowsAnchored(live, byId, nowSec);
    } else {
      OverlayFrom(owner, metas, Ids(shown), r);
    }
  }

  lemma LiveRowIsVault(live: seq<Row>, s: V.State, o: Address, from: nat, metas: map<string, RemoteMeta>,
                       localName: string -> Option<string>, nowSec: int, r: Row)
    returns (id: nat)
    requires RowsAreVaults(live, s, o, from, metas, localName, nowSec) && r in live
    ensures Owned(s, o, from, id) && RowFits(r, s.vaults[id], metas, localName, nowSec)
  {
    assert ShowsVault(r, s, o, from, metas, localName, nowSec);
    id :| Owned(s, o, from, id) && RowFits(r, s.vaults[id], metas, localName, nowSec);
  }

  lemma VaultHasRow(live: seq<Row>, s: V.State, o: Address, from: nat, metas: map<string, RemoteMeta>,
                    localName: string -> Option<string>, nowSec: int, id: nat)
    returns (r: Row)
    requires RowsAreVaults(live, s, o, from, metas, localName, nowSec) && Owned(s, o, from, id)
    ensures r in live && RowFits(r, s.vaults[id], metas, localName, nowSec)
  {
    assert HasRow(live, s.vaults[id], metas, localName, nowSec);
    r :| r in live && RowFits(r, s.vaults[id], metas, localName, nowSec);
  }

  lemma OwnedIsListed(owner: Address, live: seq<Row>, metas: seq<RemoteMeta>, s: V.State, from: nat,
                      localName: string -> Option<string>, nowSec: int, id: nat)
    requires DistinctIds(live) && Owned(s, owner, from, id)
    requires RowsAreVaults(live, s, owner, from, MetaById(metas), localName, nowSec)
    ensures IsListed(Compose(owner, live, metas, nowSec), s.vaults[id], MetaById(metas), localName, nowSec)
  {
    var r := VaultHasRow(live, s, owner, from, MetaById(metas), localName, nowSec, id);
    VaultIsListed(owner, live, metas, s.vaults[id], localName, nowSec, r);
  }

  lemma UnrecordedIsVault(owner: Address, live: seq<Row>, metas: seq<RemoteMeta>, s: V.State, from: nat,
                          localName: string -> Option<string>, nowSec: int, r: Row)
    returns (id: nat)
    requires r in Compose(owner, live, metas, nowSec) && r.vaultId !in MetaById(metas)
    requires RowsAreVaults(live, s, owner, from, MetaById(metas), localName, nowSec)
    ensures Owned(s, owner, from, id) && RowShows(r, s.vaults[id], nowSec)
  {
    UnrecordedIsRead(owner, live, metas, nowSec, r);
    id := LiveRowIsVault(live, s, owner, from, MetaById(metas), localName, nowSec, r);
    FitsShows(r, s.vaults[id], MetaById(metas), localName, nowSec);
  }

  lemma VaultsAreListed(owner: Address, live: seq<Row>, metas: seq<RemoteMeta>, s: V.State, from: nat,
                        localName: string -> Option<string>, nowSec: int)
    requires DistinctIds(live) && DistinctMetas(metas)
    requires RowsAreVaults(live, s, owner, from, MetaById(metas), localName, nowSec)
    ensures ListShows(Compose(owner, live, metas, nowSec), s, owner, from, MetaById(metas), localName, nowSec)
  {
    var list, byId := Compose(owner, live, metas, nowSec), MetaById(metas);
    ListComposition(owner, live, metas, nowSec);
    forall id: nat | Owned(s, owner, from, id)
      ensures IsListed(list, s.vaults[id], byId, localName, nowSec)
    {
      OwnedIsListed(owner, live, metas, s, from, localName, nowSec, id);
    }
    forall r | r in list && r.vaultId !in byId
      ensures IsUnrecordedVault(r, s, owner, from, nowSec)
    {
      var id := UnrecordedIsVault(owner, live, metas, s, from, localName, nowSec, r);
    }
  }

  /**
    * From the network to the dashboard, when no simulation answers and the cache adds nothing. Take any run of the
    * contract and any server that pages its published log. If the read gives fewer than a thousand rows and makes
    * fewer than twenty requests, the list composed from what is replayed and any records shows the owner's
    * vaults created since the start ledger as they stand on chain now, each once.
    */
  lemma DashboardShowsChain(s: V.State, acts: seq<V.Action>, raws: seq<RawEvent>, server: Server,
                            place: Request -> nat, latest: int, o: Address, metas: seq<RemoteMeta>,
                            localName: string -> Option<string>, nowSec: int)
    returns (k: nat)
    requires V.Initial(s) && PublishesAll(raws, V.Run(s, acts).log) && DistinctMetas(metas)
    requires Serves(server, raws, place) && Diligent(server, raws, place)
    requires place(FromLedger(FirstLedger(latest))) <= |raws|
    requires NetworkRead(Some(latest), server).Rows? && |NetworkRead(Some(latest), server).rows| < 1_000
    requires Requests(server, FirstLedger(latest)) < 20
    ensures k <= |acts|
    ensures VaultRuns.At(s, acts, k).log == V.Run(s, acts).log[..place(FromLedger(FirstLedger(latest)))]
    ensures var live := Aggregate(NetworkRead(Some(latest), server).rows, o, MetaById(metas), localName, nowSec);
      ListShows(Compose(o, live, metas, nowSec), V.Run(s, acts), o, V.NextIdOf(VaultRuns.At(s, acts, k)),
                MetaById(metas), localName, nowSec)
  {
    var first := FirstLedger(latest);
    var rows := NetworkRead(Some(latest), server).rows;
    ShortReadIsComplete(server, raws, place, first);
    k := RowsAreCurrent(s, acts, raws, rows, place(FromLedger(first)), o, MetaById(metas), localName, nowSec);
    var live := Aggregate(rows, o, MetaById(metas), localName, nowSec);
    VaultsAreListed(o, live, metas, V.Run(s, acts), V.NextIdOf(VaultRuns.At(s, acts, k)), localName, nowSec);
  }

  /** A vault whose "create" is in one of the last 17280 ledgers is among those the list shows. */
  lemma LastDayIsListed(s: V.State, acts: seq<V.Action>, raws: seq<RawEvent>, ledgers: seq<int>, server: Server,
                        place: Request -> nat, latest: int, metas: seq<RemoteMeta>,
                        localName: string -> Option<string>, nowSec: int, i: nat)
    requires V.Initial(s) && PublishesAll(raws, V.Run(s, acts).log) && DistinctMetas(metas)
    requires Serves(server, raws, place) && Diligent(server, raws, place)
    requires |ledgers| == |raws| && ByLedger(place, ledgers) && forall j :: 0 <= j < |ledgers| ==> ledgers[j] >= 1
    requires NetworkRead(Some(latest), server).Rows? && |NetworkRead(Some(latest), server).rows| < 1_000
    requires Requests(server, FirstLedger(latest)) < 20
    requires i < |raws| && V.Run(s, acts).log[i].event.Created? && ledgers[i] >= latest - 17_280
    ensures var e, event := V.Run(s, acts), V.Run(s, acts).log[i].event;
      var rows := NetworkRead(Some(latest), server).rows;
      var live := Aggregate(rows, event.who, MetaById(metas), localName, nowSec);
      && event.id in e.vaults && e.vaults[event.id].owner == event.who
      && IsListed(Compose(event.who, live, metas, nowSec), e.vaults[event.id], MetaById(metas), localName, nowSec)
  {
    var e, event := V.Run(s, acts), V.Run(s, acts).log[i].event;
    LastDayIsRead(latest, server, raws, ledgers, place);
    var k := DashboardShowsChain(s, acts, raws, server, place, latest, event.who, metas, localName, nowSec);
    CreatedLater(s, acts, k, i);
    assert Owned(e, event.who, V.NextIdOf(VaultRuns.At(s, acts, k)), event.id);
  }

  /** For the years 2020 to 2100 the replayed row has an unlock time; before, it never has one. */
  lemma PrintableIsListed(list: seq<Row>, v: V.Vault, metas: map<string, RemoteMeta>,
                          localName: string -> Option<string>, nowSec: int)
    requires IsListed(list, v, metas, localName, nowSec) && ToText(v.vaultId) !in metas
    ensures Showable(v.unlock) && v.created > 0 ==> exists r :: r in list && RowShows(r, v, nowSec)
    ensures v.unlock < 1_577_836_800 || v.created == 0 ==> ToText(v.vaultId) !in Ids(list)
  {
    var r :| RowFits(r, v, metas, localName, nowSec)
      && if r.vaultId in metas then Sanitise(r, metas, nowSec) in list
         else && (r in list <==> r.unlock > 0 && v.created > 0)
              && (r.vaultId in Ids(list) <==> r.unlock > 0 && v.created > 0);
    assert RowShows(r, v, nowSec);
  }

  // ------------------------------------------------------------------ the list from simulation

  /** A vault as it is decoded from a simulated read. */
  function SimulatedRow(v: V.Vault, nowSec: int): Row {
    Row(ToText(v.vaultId), v.owner, v.name, v.balance, v.unlock, v.created, StatusFor(v, nowSec))
  }

  /** What simulation reads of an owner's vaults. */
  function Simulated(s: V.State, o: Address, nowSec: int): (rows: seq<Row>)
    requires forall id :: id in V.ListOwned(s, o) ==> id in s.vaults
    ensures |rows| == |V.ListOwned(s, o)|
    ensures forall i :: 0 <= i < |rows| ==> rows[i] == SimulatedRow(s.vaults[V.ListOwned(s, o)[i]], nowSec)
  {
    seq(|V.ListOwned(s, o)|, i requires 0 <= i < |V.ListOwned(s, o)| =>
          SimulatedRow(s.vaults[V.ListOwned(s, o)[i]], nowSec))
  }

  lemma SimulatedIsDistinct(s: V.State, o: Address, nowSec: int)
    requires VaultInvariants.IdsDense(s) && VaultInvariants.IndexOf(s.vaults, o, V.ListOwned(s, o))
    ensures DistinctIds(Simulated(s, o, nowSec))
  {
    var ids, rows := V.ListOwned(s, o), Simulated(s, o, nowSec);
    forall i, j | 0 <= i < j < |rows|
      ensures rows[i].vaultId != rows[j].vaultId
    {
      assert ids[i] in ids && ids[j] in ids;
      ToTextInjective(ids[i], ids[j]);
    }
  }

  lemma SimulatedHas(s: V.State, o: Address, nowSec: int, id: nat)
    requires VaultInvariants.IdsDense(s) && VaultInvariants.IndexOf(s.vaults, o, V.ListOwned(s, o))
    requires id in s.vaults && s.vaults[id].owner == o
    ensures SimulatedRow(s.vaults[id], nowSec) in Simulated(s, o, nowSec)
  {
    var ids, rows := V.ListOwned(s, o), Simulated(s, o, nowSec);
    assert id in ids;
    var i :| 0 <= i < |ids| && ids[i] == id;
    assert rows[i] in rows;
  }

  lemma SimulatedIs(s: V.State, o: Address, nowSec: int, x: Row) returns (id: nat)
    requires VaultInvariants.IndexOf(s.vaults, o, V.ListOwned(s, o)) && x in Simulated(s, o, nowSec)
    ensures Owned(s, o, 0, id) && x == SimulatedRow(s.vaults[id], nowSec)
  {
    var ids, rows := V.ListOwned(s, o), Simulated(s, o, nowSec);
    var i :| 0 <= i < |rows| && rows[i] == x;
    id := ids[i];
    assert id in ids;
  }

  /** Row `r` is vault `v`, in every field. */
  predicate IsAsOnChain(r: Row, v: V.Vault, nowSec: int) {
    && r.vaultId == ToText(v.vaultId) && r.owner == v.owner && r.name == v.name
    && r.balance == v.balance && r.unlock == v.unlock && r.created == v.created
    && r.status == if v.withdrawn then Withdrawn else if nowSec >= v.unlock then Unlocked else Locked
  }

  /** Vault `v` is listed as it is on chain; but one created in the clock's first second only if a record names it. */
  ghost predicate IsListedAsIs(list: seq<Row>, v: V.Vault, metas: map<string, RemoteMeta>, nowSec: int) {
    && (v.created > 0 ==> exists r :: r in list && IsAsOnChain(r, v, nowSec))
    && (v.created == 0 && ToText(v.vaultId) !in metas ==> ToText(v.vaultId) !in Ids(list))
  }

  ghost predicate IsSimulated(r: Row, s: V.State, o: Address, nowSec: int) {
    exists id: nat :: Owned(s, o, 0, id) && IsAsOnChain(r, s.vaults[id], nowSec)
  }

  /** A simulated read is true of a vault exactly when it was not created in the clock's first second. */
  lemma SimulatedIsListed(o: Address, live: seq<Row>, metas: seq<RemoteMeta>, v: V.Vault, nowSec: int)
    requires DistinctIds(live) && SimulatedRow(v, nowSec) in live && v.created < v.unlock
    ensures IsListedAsIs(Compose(o, live, metas, nowSec), v, MetaById(metas), nowSec)
    ensures ReadIsTrue(live, v, nowSec) <==> v.created > 0
  {
    var x := SimulatedRow(v, nowSec);
    LiveRowIsListed(o, live, metas, nowSec, x);
    assert IsAsOnChain(x, v, nowSec);
    forall y | y in live && y.vaultId == x.vaultId
      ensures y == x
    {
      OneRowEach(live, x, y);
    }
  }

  lemma SimulatedVaultIsListed(s: V.State, acts: seq<V.Action>, o: Address, metas: seq<RemoteMeta>, nowSec: int,
                               id: nat)
    requires V.Initial(s) && Owned(V.Run(s, acts), o, 0, id)
    requires VaultInvariants.IndexOf(V.Run(s, acts).vaults, o, V.ListOwned(V.Run(s, acts), o))
    ensures var e := V.Run(s, acts);
      var live := Simulated(e, o, nowSec);
      && IsListedAsIs(Compose(o, live, metas, nowSec), e.vaults[id], MetaById(metas), nowSec)
      && (ReadIsTrue(live, e.vaults[id], nowSec) <==> e.vaults[id].created > 0)
  {
    var e := V.Run(s, acts);
    VaultInvariants.RunKeepsInv(s, acts);
    SimulatedIsDistinct(e, o, nowSec);
    SimulatedHas(e, o, nowSec, id);
    VaultRuns.UnlocksAfterCreation(s, acts, id);
    SimulatedIsListed(o, Simulated(e, o, nowSec), metas, e.vaults[id], nowSec);
  }

  /**
    * With simulation the list is the chain: in every reachable state each of the owner's vaults is listed as it is,
    * whatever the backend's records say, each once, and nothing else is but what the backend has a record of.
    */
  lemma SimulatedListShowsChain(s: V.State, acts: seq<V.Action>, o: Address, metas: seq<RemoteMeta>, nowSec: int)
    requires V.Initial(s) && DistinctMetas(metas)
    ensures VaultInvariants.IndexOf(V.Run(s, acts).vaults, o, V.ListOwned(V.Run(s, acts), o))
    ensures var e := V.Run(s, acts);
      var list := Compose(o, Simulated(e, o, nowSec), metas, nowSec);
      && DistinctIds(list)
      && (forall id: nat {:trigger IsListedAsIs(list, e.vaults[id], MetaById(metas), nowSec)} :: Owned(e, o, 0, id) ==>
            IsListedAsIs(list, e.vaults[id], MetaById(metas), nowSec))
      && (forall r {:trigger IsSimulated(r, e, o, nowSec)} :: r in list && r.vaultId !in MetaById(metas) ==>
            IsSimulated(r, e, o, nowSec))
  {
    var e := V.Run(s, acts);
    VaultRuns.IndexIsExact(s, acts, o);
    VaultInvariants.RunKeepsInv(s, acts);
    var live := Simulated(e, o, nowSec);
    var list := Compose(o, live, metas, nowSec);
    SimulatedIsDistinct(e, o, nowSec);
    ListComposition(o, live, metas, nowSec);
    forall id: nat | Owned(e, o, 0, id)
      ensures IsListedAsIs(list, e.vaults[id], MetaById(metas), nowSec)
    {
      SimulatedVaultIsListed(s, acts, o, metas, nowSec, id);
    }
    forall r | r in list && r.vaultId !in MetaById(metas)
      ensures IsSimulated(r, e, o, nowSec)
    {
      UnrecordedIsRead(o, live, metas, nowSec, r);
      var id := SimulatedIs(e, o, nowSec, r);
    }
  }
}
