/** When the dashboard's list agrees with the chain, and when it cannot come to agree. */
module ListTruth {
  import opened Base
  import opened Decimal
  import opened Rows
  import opened Replay
  import opened StableSort
  import opened VaultList
  import opened ReplayRefinement
  import V = VaultModel

  // ------------------------------------------------------------------ one listing

  /** What was read of a vault, if anything was, is real and has the vault's status. */
  ghost predicate ReadIsTrue(live: seq<Row>, v: V.Vault, nowSec: int) {
    forall x :: x in live && x.vaultId == ToText(v.vaultId) ==> !LooksZero(x) && x.status == StatusFor(v, nowSec)
  }

  lemma {:induction false} ShownFrom(live: seq<Row>, metas: map<string, RemoteMeta>, nowSec: int, r: Row)
    requires r in LiveRows(live, metas, nowSec)
    ensures exists x :: x in live && r == Sanitise(x, metas, nowSec)
  {
    var front, x := live[..|live| - 1], live[|live| - 1];
    if r in LiveRows(front, metas, nowSec) {
      ShownFrom(front, metas, nowSec, r);
      var y :| y in front && r == Sanitise(y, metas, nowSec);
      assert y in live;
    } else {
      assert x in live;
    }
  }

  lemma {:induction false} OverlayFrom(owner: Address, remotes: seq<RemoteMeta>, liveIds: set<string>, r: Row)
    requires r in Overlay(owner, remotes, liveIds)
    ensures exists m :: m in remotes && m.vaultId !in liveIds && r == OverlayRow(owner, m)
  {
    var front, m := remotes[..|remotes| - 1], remotes[|remotes| - 1];
    if r in Overlay(owner, front, liveIds) {
      OverlayFrom(owner, front, liveIds, r);
      var n :| n in front && n.vaultId !in liveIds && r == OverlayRow(owner, n);
      assert n in remotes;
    } else {
      assert m in remotes;
    }
  }

  /** A record that is not covered is shown as withdrawn when it says so, or still says "live". */
  predicate SaysOver(m: RemoteMeta) {
    m.chainStatus == Some(LiveOnChain) || m.chainStatus == Some(WithdrawnOnChain)
  }

  lemma UncoveredRow(owner: Address, m: RemoteMeta, v: V.Vault, nowSec: int)
    ensures OverlayRow(owner, m).status == StatusFor(v, nowSec) <==> v.withdrawn && SaysOver(m)
  {
  }

  /**
    * A row without its times, whose record has an unlock time, is shown with an unpaid vault's status on chain at
    * every moment exactly when the record's unlock time is the vault's and the record says neither "withdrawn" nor
    * "archived"; and with a withdrawn vault's exactly when the record says "withdrawn".
    */
  lemma RescuedStatusIff(x: Row, m: RemoteMeta, metas: map<string, RemoteMeta>, v: V.Vault)
    requires x.status != Archived && (x.unlock <= 0 || x.created <= 0)
    requires x.vaultId in metas && metas[x.vaultId] == m && m.unlock.Some? && m.unlock.value > 0
    ensures (forall t: int :: Sanitise(x, metas, t).status == StatusFor(v, t)) <==>
      if v.withdrawn then m.chainStatus == Some(WithdrawnOnChain)
      else m.unlock.value == v.unlock
           && m.chainStatus != Some(WithdrawnOnChain) && m.chainStatus != Some(ArchivedOnChain)
  {
    var t: int := if m.unlock.value < v.unlock then m.unlock.value else v.unlock;
    RescuedRow(x, m, metas, t);
    forall u: int
      ensures var r := Sanitise(x, metas, u);
        && (r.status == Withdrawn <==> m.chainStatus == Some(WithdrawnOnChain))
        && (r.status == Archived <==> m.chainStatus == Some(ArchivedOnChain))
        && (r.status == Unlocked || r.status == Locked ==> (r.status == Unlocked <==> u >= m.unlock.value))
    {
      RescuedRow(x, m, metas, u);
    }
    assert Sanitise(x, metas, t).status == StatusFor(v, t) || Sanitise(x, metas, t).status != StatusFor(v, t);
  }

  /**
    * Read as row `x`, vault `v` is shown with its status on chain: the row is real and has it; or the row lacks its
    * times and the record, one with a snapshot, states it or comes to it by its unlock time.
    */
  predicate ShownTrue(x: Row, metas: map<string, RemoteMeta>, v: V.Vault, nowSec: int) {
    if x.status != Archived && x.unlock > 0 && x.created > 0 then x.status == StatusFor(v, nowSec)
    else if x.status != Archived && x.vaultId in metas && HasSnapshot(metas[x.vaultId]) then
      var m := metas[x.vaultId];
      var unlock := if m.unlock.Some? then m.unlock.value else 0;
      if v.withdrawn then m.chainStatus == Some(WithdrawnOnChain)
      else m.chainStatus != Some(WithdrawnOnChain) && m.chainStatus != Some(ArchivedOnChain)
           && (nowSec >= unlock <==> nowSec >= v.unlock)
    else false
  }

  lemma SanitisedIsTrueIff(x: Row, metas: map<string, RemoteMeta>, v: V.Vault, nowSec: int)
    ensures Sanitise(x, metas, nowSec).status == StatusFor(v, nowSec) <==> ShownTrue(x, metas, v, nowSec)
  {
    RealRowIsKept(x, metas, nowSec);
    if x.status != Archived && (x.unlock <= 0 || x.created <= 0) {
      if x.vaultId in metas && HasSnapshot(metas[x.vaultId]) {
        RescuedRow(x, metas[x.vaultId], metas, nowSec);
      } else {
        UnrescuedRow(x, metas, nowSec);
      }
    }
  }

  lemma RowOfReadVault(live: seq<Row>, metas: seq<RemoteMeta>, owner: Address, nowSec: int, x: Row, r: Row)
    requires DistinctIds(live) && DistinctMetas(metas) && x in live && x.vaultId == r.vaultId
    requires r in Compose(owner, live, metas, nowSec)
    ensures r == Sanitise(x, MetaById(metas), nowSec)
  {
    var byId := MetaById(metas);
    var shown := LiveRows(live, byId, nowSec);
    SameElements(Parts(owner, live, metas, nowSec), ShownBefore);
    if r in shown {
      ShownFrom(live, byId, nowSec, r);
      var y :| y in live && r == Sanitise(y, byId, nowSec);
      RealRowIsKept(y, byId, nowSec);
      OneRowEach(live, x, y);
    } else {
      OverlayFrom(owner, metas, Ids(shown), r);
      var m :| m in metas && m.vaultId !in Ids(shown) && r == OverlayRow(owner, m);
      RecordById(metas, m);
      SanitisedIsShown(live, byId, nowSec, x);
      RealRowIsKept(x, byId, nowSec);
      assert false;
    }
  }

  lemma RowOfUnreadVault(live: seq<Row>, metas: seq<RemoteMeta>, owner: Address, nowSec: int, r: Row)
    returns (m: RemoteMeta)
    requires r in Compose(owner, live, metas, nowSec) && r.vaultId !in Ids(live) && DistinctMetas(metas)
    ensures r.vaultId in MetaById(metas) && m == MetaById(metas)[r.vaultId] && r == OverlayRow(owner, m)
  {
    var byId := MetaById(metas);
    var shown := LiveRows(live, byId, nowSec);
    SameElements(Parts(owner, live, metas, nowSec), ShownBefore);
    if r in shown {
      ShownFrom(live, byId, nowSec, r);
      var y :| y in live && r == Sanitise(y, byId, nowSec);
      RealRowIsKept(y, byId, nowSec);
      assert false;
    }
    OverlayFrom(owner, metas, Ids(shown), r);
    m :| m in metas && m.vaultId !in Ids(shown) && r == OverlayRow(owner, m);
    RecordById(metas, m);
  }

  /**
    * A listed vault is shown with its status on chain exactly when it was read and the row read for it leads to that
    * status, or it was not read, has been withdrawn, and its record says "withdrawn" or still says "live".
    */
  lemma ListedStatusIsTrueIff(owner: Address, live: seq<Row>, metas: seq<RemoteMeta>, v: V.Vault, nowSec: int, r: Row)
    requires DistinctIds(live) && DistinctMetas(metas)
    requires r in Compose(owner, live, metas, nowSec) && r.vaultId == ToText(v.vaultId)
    ensures r.status == StatusFor(v, nowSec) <==>
            if r.vaultId in Ids(live) then
              exists x :: x in live && x.vaultId == r.vaultId && ShownTrue(x, MetaById(metas), v, nowSec)
            else
              v.withdrawn && r.vaultId in MetaById(metas) && SaysOver(MetaById(metas)[r.vaultId])
  {
    if r.vaultId in Ids(live) {
      forall x | x in live && x.vaultId == r.vaultId
        ensures r.status == StatusFor(v, nowSec) <==> ShownTrue(x, MetaById(metas), v, nowSec)
      {
        RowOfReadVault(live, metas, owner, nowSec, x, r);
        SanitisedIsTrueIff(x, MetaById(metas), v, nowSec);
      }
    } else {
      var m := RowOfUnreadVault(live, metas, owner, nowSec, r);
      UncoveredRow(owner, m, v, nowSec);
    }
  }

  lemma RecordById(metas: seq<RemoteMeta>, m: RemoteMeta)
    requires DistinctMetas(metas) && m in metas
    ensures m.vaultId in MetaById(metas) && MetaById(metas)[m.vaultId] == m
  {
    var n := MetaById(metas)[m.vaultId];
    var i :| 0 <= i < |metas| && metas[i] == m;
    var j :| 0 <= j < |metas| && metas[j] == n;
    assert i == j;
  }

  /** A live row without a record is listed as it is exactly when it is real; with one it always is, sanitised. */
  lemma LiveRowIsListed(owner: Address, live: seq<Row>, metas: seq<RemoteMeta>, nowSec: int, x: Row)
    requires DistinctIds(live) && x in live
    ensures var list := Compose(owner, live, metas, nowSec);
      if x.vaultId in MetaById(metas) then Sanitise(x, MetaById(metas), nowSec) in list
      else && (x in list <==> x.status != Archived && !LooksZero(x))
           && (x.vaultId in Ids(list) <==> x in list)
  {
    var byId := MetaById(metas);
    var parts := Parts(owner, live, metas, nowSec);
    SameElements(parts, ShownBefore);
    SanitisedIsShown(live, byId, nowSec, x);
    if x.vaultId !in byId {
      KnownIds(metas);
      PartsIds(owner, live, metas, nowSec, x.vaultId);
      assert Ids(parts) == Ids(Compose(owner, live, metas, nowSec));
      if x in parts {
        assert x.vaultId in Ids(parts);
      }
    }
    if exists y :: y in live && y.vaultId == x.vaultId && y.status != Archived && !LooksZero(y) {
      var y :| y in live && y.vaultId == x.vaultId && y.status != Archived && !LooksZero(y);
      OneRowEach(live, x, y);
    }
  }

  lemma OneRowEach(rows: seq<Row>, x: Row, y: Row)
    requires DistinctIds(rows) && x in rows && y in rows && x.vaultId == y.vaultId
    ensures x == y
  {
    var i :| 0 <= i < |rows| && rows[i] == x;
    var j :| 0 <= j < |rows| && rows[j] == y;
  }

  lemma {:induction false} SanitisedIsShown(live: seq<Row>, metas: map<string, RemoteMeta>, nowSec: int, x: Row)
    requires x in live
    ensures Survives(x, metas) ==> Sanitise(x, metas, nowSec) in LiveRows(live, metas, nowSec)
  {
    var front, last := live[..|live| - 1], live[|live| - 1];
    SurvivesIffAnchored(last, metas, nowSec);
    if x != last {
      assert x in front;
      SanitisedIsShown(front, metas, nowSec, x);
    }
  }

  // ------------------------------------------------------------------ what reads give

  /**
    * A replayed row is real and has its vault's status exactly when it has an unlock and a creation time, and the
    * moment is not between the unlock time shown and the real one, where the row already says "unlocked".
    */
  lemma ReplayedReadIsTrueIff(r: Row, v: V.Vault, nowSec: int)
    requires RowShows(r, v, nowSec)
    ensures !LooksZero(r) && r.status == StatusFor(v, nowSec) <==>
            r.unlock > 0 && v.created > 0 && (v.withdrawn || !(r.unlock <= nowSec < v.unlock))
  {
    UnlockShownMeans(r.unlock, v.unlock);
  }

  lemma {:induction false} UncoveredIsListed(owner: Address, metas: seq<RemoteMeta>, liveIds: set<string>,
                                             m: RemoteMeta)
    requires m in metas && m.vaultId !in liveIds
    ensures OverlayRow(owner, m) in Overlay(owner, metas, liveIds)
    ensures m.chainStatus == Some(LiveOnChain) ==> m.vaultId in Dismissed(metas, liveIds)
  {
    var n := |metas| - 1;
    if m != metas[n] {
      assert m in metas[..n];
      UncoveredIsListed(owner, metas[..n], liveIds, m);
    }
  }

  /**
    * A record without a live row: it has an overlay row, and it is dismissed exactly when it still says "live",
    * which shows the vault as withdrawn with nothing in it, whatever it is on chain.
    */
  lemma UnreadVaultIsListedWithdrawn(owner: Address, live: seq<Row>, metas: seq<RemoteMeta>, m: RemoteMeta,
                                     nowSec: int)
    requires m in metas && m.vaultId !in Ids(live) && DistinctMetas(metas)
    ensures var r := OverlayRow(owner, m);
      && r in Compose(owner, live, metas, nowSec) && r.vaultId == m.vaultId
      && (m.chainStatus == Some(LiveOnChain) ==> r.status == Withdrawn && r.balance == 0)
    ensures m.vaultId in Dismissed(metas, Ids(LiveRows(live, MetaById(metas), nowSec))) <==>
            m.chainStatus == Some(LiveOnChain)
  {
    var shown := LiveRows(live, MetaById(metas), nowSec);
    LiveRowsIds(live, MetaById(metas), nowSec);
    UncoveredIsListed(owner, metas, Ids(shown), m);
    SameElements(Parts(owner, live, metas, nowSec), ShownBefore);
    DismissedMeaning(metas, Ids(shown));
    if m.vaultId in Dismissed(metas, Ids(shown)) {
      var n :| n in metas && n.vaultId == m.vaultId && n.chainStatus == Some(LiveOnChain);
      RecordById(metas, m);
      RecordById(metas, n);
    }
  }

  lemma SameRecordSameRow(metas: map<string, RemoteMeta>, metas': map<string, RemoteMeta>, nowSec: int, x: Row)
    requires Lookup(metas, x.vaultId) == Lookup(metas', x.vaultId)
    ensures Sanitise(x, metas, nowSec) == Sanitise(x, metas', nowSec)
  {
  }

  /** A record with a live row: the row is shown, completed by this record alone, and the record is not dismissed. */
  lemma ReadVaultIsShown(live: seq<Row>, metas: seq<RemoteMeta>, m: RemoteMeta, nowSec: int, x: Row)
    requires DistinctMetas(metas) && m in metas && x in live && x.vaultId == m.vaultId
    ensures Sanitise(x, ById(m), nowSec) in LiveRows(live, MetaById(metas), nowSec)
    ensures m.vaultId !in Dismissed(metas, Ids(LiveRows(live, MetaById(metas), nowSec)))
  {
    RecordById(metas, m);
    SameRecordSameRow(ById(m), MetaById(metas), nowSec, x);
    SanitisedIsShown(live, MetaById(metas), nowSec, x);
    DismissedIsNotLive(live, metas, nowSec, x);
  }

  // ------------------------------------------------------------------ listing after listing

  function ById(m: RemoteMeta): map<string, RemoteMeta> {
    map[m.vaultId := m]
  }

  /** A snapshot that arrives overwrites the record's balance, unlock time and status. */
  function Store(m: RemoteMeta, snap: Snapshot): RemoteMeta {
    m.(balance := Some(snap.balance), unlock := Some(snap.unlock),
       chainStatus := Some(if snap.withdrawn then WithdrawnOnChain else LiveOnChain))
  }

  /**
    * A listing, as the record of one vault meets it. The vault's live row was replayed from events and completed by
    * the record; or it is any other row, simulated, cached, merged with a cached one, or replayed while the records
    * could not be read (`saw` is false then); or there was no live row. `written` says whether what the listing
    * sends to the backend arrives; a snapshot held back because the vault is frozen is one that does not.
    */
  datatype Listing =
    | Replayed(a: Accum, nowSec: int, written: bool)
    | Given(row: Row, nowSec: int, saw: bool, written: bool)
    | Missed(written: bool)

  function SendBack(m: RemoteMeta, owner: Address, row: Row, written: bool): RemoteMeta {
    if written && Sendable(row) then Store(m, SnapshotOf(owner, row)) else m
  }

  /** The record after a listing. */
  function Listed(m: RemoteMeta, owner: Address, localName: Option<string>, x: Listing): RemoteMeta {
    match x
    case Replayed(a, nowSec, written) =>
      SendBack(m, owner, Sanitise(RowOf(a, owner, Some(m), localName, nowSec), ById(m), nowSec), written)
    case Given(row, nowSec, saw, written) =>
      SendBack(m, owner, Sanitise(row, if saw then ById(m) else map[], nowSec), written)
    case Missed(written) =>
      if written && m.chainStatus == Some(LiveOnChain) then Dismiss(m) else m
  }

  function Listings(m: RemoteMeta, owner: Address, localName: Option<string>, xs: seq<Listing>): RemoteMeta {
    if xs == [] then m
    else Listed(Listings(m, owner, localName, xs[..|xs| - 1]), owner, localName, xs[|xs| - 1])
  }

  /** The listing puts a row into the record that does not come from it. */
  predicate Overwrites(x: Listing) {
    x.Given? && x.written && x.row.status != Archived && !LooksZero(x.row)
  }

  /** What the record last got from elsewhere: the row of the last listing that overwrote it, or what it began with. */
  function Source(m: RemoteMeta, owner: Address, xs: seq<Listing>): RemoteMeta {
    if xs == [] then m
    else if Overwrites(xs[|xs| - 1]) then Store(m, SnapshotOf(owner, xs[|xs| - 1].row))
    else Source(m, owner, xs[..|xs| - 1])
  }

  ghost predicate NotOverwrittenSince(xs: seq<Listing>, i: nat) {
    forall j: nat :: i < j < |xs| ==> !Overwrites(xs[j])
  }

  /** Listing `i` missed the vault while its record said "live", and the record has not been overwritten since. */
  ghost predicate PoisonedAt(m: RemoteMeta, owner: Address, localName: Option<string>, xs: seq<Listing>, i: nat) {
    && i < |xs| && xs[i] == Missed(true)
    && Listings(m, owner, localName, xs[..i]).chainStatus == Some(LiveOnChain)
    && NotOverwrittenSince(xs, i)
  }

  /** No listing so far saw the vault's withdrawal among the events. */
  ghost predicate NeverSeenPaid(xs: seq<Listing>) {
    forall x :: x in xs && x.Replayed? ==> !x.a.withdrawn
  }

  /** A row replayed with a record that has an unlock time is shown as it is, if the vault has a creation time. */
  lemma RecordedRowIsShown(owner: Address, live: seq<Row>, metas: seq<RemoteMeta>, m: RemoteMeta, a: Accum,
                           localName: Option<string>, nowSec: int)
    requires DistinctIds(live) && DistinctMetas(metas) && m in metas && m.vaultId == a.vaultId
    requires m.unlock.GetOr(0) > 0 && a.created > 0
    requires RowOf(a, owner, Some(m), localName, nowSec) in live
    ensures RowOf(a, owner, Some(m), localName, nowSec) in Compose(owner, live, metas, nowSec)
  {
    RecordById(metas, m);
    LiveRowIsListed(owner, live, metas, nowSec, RowOf(a, owner, Some(m), localName, nowSec));
  }

  // ------------------------------------------------------------------ one more listing

  lemma OverwriteStores(m: RemoteMeta, owner: Address, localName: Option<string>, x: Listing)
    requires Overwrites(x)
    ensures Listed(m, owner, localName, x) == Store(m, SnapshotOf(owner, x.row))
  {
  }

  /** A row without its times is sent back only when the record could be read, and then as the record has it. */
  lemma ZeroRowNeedsRecord(m: RemoteMeta, owner: Address, localName: Option<string>, row: Row, nowSec: int, saw: bool)
    requires row.vaultId == m.vaultId && row.status != Archived && (row.unlock <= 0 || row.created <= 0)
    requires m.unlock.Some? && m.unlock.value > 0 && m.chainStatus != Some(ArchivedOnChain)
    ensures var n := Listed(m, owner, localName, Given(row, nowSec, saw, true));
      if saw then
        && n.unlock == m.unlock && n.balance == Some(m.balance.GetOr(row.balance))
        && n.chainStatus == Some(if m.chainStatus == Some(WithdrawnOnChain) then WithdrawnOnChain else LiveOnChain)
      else n == m
  {
    if saw {
      RescuedRow(row, m, ById(m), nowSec);
    } else {
      UnrescuedRow(row, map[], nowSec);
    }
  }

  /** Apart from an overwrite, a stored unlock time never changes. */
  lemma ListedKeepsUnlock(m: RemoteMeta, owner: Address, localName: Option<string>, x: Listing)
    requires m.unlock.GetOr(0) > 0 && !Overwrites(x)
    ensures Listed(m, owner, localName, x).unlock == m.unlock
  {
    assert Lookup(ById(m), m.vaultId) == Some(m);
  }

  /** Apart from an overwrite, a record that says "withdrawn" goes on saying so, and stays empty if it is. */
  lemma WithdrawnStays(m: RemoteMeta, owner: Address, localName: Option<string>, x: Listing)
    requires m.chainStatus == Some(WithdrawnOnChain) && !Overwrites(x)
    ensures var n := Listed(m, owner, localName, x);
      n.chainStatus == Some(WithdrawnOnChain) && (m.balance == Some(0) ==> n.balance == Some(0))
  {
    assert Lookup(ById(m), m.vaultId) == Some(m);
  }

  /**
    * A record that does not say "withdrawn" comes to say so exactly by a miss while it says "live"; otherwise its
    * balance stays as well.
    */
  lemma OpenStays(m: RemoteMeta, owner: Address, localName: Option<string>, x: Listing)
    requires m.chainStatus != Some(WithdrawnOnChain) && !Overwrites(x) && (x.Replayed? ==> !x.a.withdrawn)
    ensures var n := Listed(m, owner, localName, x);
      && (n.chainStatus == Some(WithdrawnOnChain) <==> x == Missed(true) && m.chainStatus == Some(LiveOnChain))
      && (n.chainStatus != Some(WithdrawnOnChain) && m.balance.Some? ==> n.balance == m.balance)
  {
    assert Lookup(ById(m), m.vaultId) == Some(m);
  }

  // ------------------------------------------------------------------ any number of listings

  /** A stored unlock time is always the one last got from elsewhere: no number of misses and replays changes it. */
  lemma {:induction false} ListingsKeepUnlock(m: RemoteMeta, owner: Address, localName: Option<string>,
                                              xs: seq<Listing>)
    requires m.unlock.GetOr(0) > 0
    ensures Listings(m, owner, localName, xs).unlock == Source(m, owner, xs).unlock
    ensures Source(m, owner, xs).unlock.GetOr(0) > 0
  {
    if xs != [] {
      var front, x := xs[..|xs| - 1], xs[|xs| - 1];
      ListingsKeepUnlock(m, owner, localName, front);
      var n := Listings(m, owner, localName, front);
      if Overwrites(x) {
        OverwriteStores(n, owner, localName, x);
      } else {
        ListedKeepsUnlock(n, owner, localName, x);
      }
    }
  }

  lemma SinceFront(xs: seq<Listing>, i: nat)
    requires i + 1 < |xs|
    ensures NotOverwrittenSince(xs, i) <==>
            NotOverwrittenSince(xs[..|xs| - 1], i) && !Overwrites(xs[|xs| - 1])
  {
    var front := xs[..|xs| - 1];
    assert forall j: nat :: i < j < |front| ==> front[j] == xs[j];
  }

  lemma PoisonedFront(m: RemoteMeta, owner: Address, localName: Option<string>, xs: seq<Listing>, i: nat)
    requires i + 1 < |xs|
    ensures PoisonedAt(m, owner, localName, xs, i) <==>
            PoisonedAt(m, owner, localName, xs[..|xs| - 1], i) && !Overwrites(xs[|xs| - 1])
  {
    assert xs[..|xs| - 1][..i] == xs[..i];
    SinceFront(xs, i);
  }

  lemma PoisonedLast(m: RemoteMeta, owner: Address, localName: Option<string>, xs: seq<Listing>)
    requires xs != []
    ensures var n := |xs| - 1;
      PoisonedAt(m, owner, localName, xs, n) <==>
      xs[n] == Missed(true) && Listings(m, owner, localName, xs[..n]).chainStatus == Some(LiveOnChain)
  {
    assert NotOverwrittenSince(xs, |xs| - 1);
  }

  lemma PoisonedNext(m: RemoteMeta, owner: Address, localName: Option<string>, xs: seq<Listing>)
    requires xs != []
    ensures var n := |xs| - 1;
      (exists i: nat :: PoisonedAt(m, owner, localName, xs, i)) <==>
      || (!Overwrites(xs[n]) && exists i: nat :: PoisonedAt(m, owner, localName, xs[..n], i))
      || (xs[n] == Missed(true) && Listings(m, owner, localName, xs[..n]).chainStatus == Some(LiveOnChain))
  {
    var n := |xs| - 1;
    forall i: nat | i < n
      ensures PoisonedAt(m, owner, localName, xs, i) <==>
              PoisonedAt(m, owner, localName, xs[..n], i) && !Overwrites(xs[n])
    {
      PoisonedFront(m, owner, localName, xs, i);
    }
    PoisonedLast(m, owner, localName, xs);
  }

  /**
    * After any number of listings in which no withdrawal was seen, the record of a vault says "withdrawn" exactly
    * when what it last got from elsewhere said so, or some listing since then missed the vault while the
    * record said "live". Unless it says so, the stored balance is the one last got from elsewhere.
    */
  lemma {:induction false} ListingsWithdrawIff(m: RemoteMeta, owner: Address, localName: Option<string>,
                                               xs: seq<Listing>)
    requires NeverSeenPaid(xs)
    ensures var n, source := Listings(m, owner, localName, xs), Source(m, owner, xs);
      && (n.chainStatus == Some(WithdrawnOnChain) <==>
            || source.chainStatus == Some(WithdrawnOnChain)
            || exists i: nat :: PoisonedAt(m, owner, localName, xs, i))
      && (n.chainStatus != Some(WithdrawnOnChain) && source.balance.Some? ==> n.balance == source.balance)
  {
    if xs != [] {
      var front, x := xs[..|xs| - 1], xs[|xs| - 1];
      ListingsWithdrawIff(m, owner, localName, front);
      PoisonedNext(m, owner, localName, xs);
      var n := Listings(m, owner, localName, front);
      if Overwrites(x) {
        OverwriteStores(n, owner, localName, x);
      } else if n.chainStatus == Some(WithdrawnOnChain) {
        WithdrawnStays(n, owner, localName, x);
      } else {
        OpenStays(n, owner, localName, x);
      }
    }
  }

  /**
    * Over any number of listings, an unpaid vault replayed next is shown with the status it has on chain, at every
    * moment, exactly when what its record last got from elsewhere is the vault's current unlock time and does
    * not say "withdrawn", and no listing since then missed the vault while the record said "live". So neither a
    * stale snapshot nor a miss ever heals from events.
    */
  lemma StatusAfterListings(m: RemoteMeta, localName: Option<string>, xs: seq<Listing>, a: Accum, v: V.Vault)
    requires m.unlock.GetOr(0) > 0 && NeverSeenPaid(xs)
    requires MirrorsVault(a, v) && !v.withdrawn
    ensures var stored, source := Listings(m, v.owner, localName, xs), Source(m, v.owner, xs);
      (forall t: int :: RowOf(a, v.owner, Some(stored), localName, t).status == StatusFor(v, t)) <==>
      && source.unlock == Some(v.unlock) && source.chainStatus != Some(WithdrawnOnChain)
      && !exists i: nat :: PoisonedAt(m, v.owner, localName, xs, i)
  {
    ListingsKeepUnlock(m, v.owner, localName, xs);
    ListingsWithdrawIff(m, v.owner, localName, xs);
    SnapshotDecidesStatus(a, v, Listings(m, v.owner, localName, xs), localName);
  }

  lemma {:induction false} PoisonStays(m: RemoteMeta, owner: Address, localName: Option<string>, xs: seq<Listing>,
                                       i: nat)
    requires PoisonedAt(m, owner, localName, xs, i)
    ensures var n := Listings(m, owner, localName, xs);
      n.chainStatus == Some(WithdrawnOnChain) && n.balance == Some(0)
  {
    if i + 1 < |xs| {
      PoisonedFront(m, owner, localName, xs, i);
      PoisonStays(m, owner, localName, xs[..|xs| - 1], i);
      WithdrawnStays(Listings(m, owner, localName, xs[..|xs| - 1]), owner, localName, xs[|xs| - 1]);
    }
  }

  /**
    * The failing input: one miss while the record is right in every respect, and from then on every listing from
    * events shows the unpaid vault as withdrawn with nothing in it, at every moment.
    */
  lemma OneMissIsForGood(m: RemoteMeta, localName: Option<string>, xs: seq<Listing>, a: Accum, v: V.Vault, t: int)
    requires m.chainStatus == Some(LiveOnChain) && m.unlock == Some(v.unlock) && m.balance == Some(v.balance)
    requires xs != [] && xs[0] == Missed(true) && forall x :: x in xs ==> !Overwrites(x)
    requires MirrorsVault(a, v) && !v.withdrawn
    ensures var row := RowOf(a, v.owner, Some(Listings(m, v.owner, localName, xs)), localName, t);
      row.status == Withdrawn && row.balance == 0 && StatusFor(v, t) != Withdrawn
  {
    assert xs[..0] == [];
    assert PoisonedAt(m, v.owner, localName, xs, 0);
    PoisonStays(m, v.owner, localName, xs, 0);
  }
}
