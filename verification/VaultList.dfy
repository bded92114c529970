/** Composing live rows with the backend's records into the list the dashboard shows, and its totals. */
module VaultList {
  import opened Base
  import opened Rows
  import opened StableSort

  // ------------------------------------------------------------------ sanitising live rows

  predicate LooksZero(v: Row) {
    v.status != Archived && (v.unlock <= 0 || v.created <= 0)
  }

  /** A row with uninitialised times is rebuilt from the backend's snapshot, or else shown as archived. */
  function Sanitise(v: Row, metas: map<string, RemoteMeta>, nowSec: int): Row {
    var meta := Lookup(metas, v.vaultId);
    if !LooksZero(v) then v
    else if meta.Some? && (meta.value.unlock.GetOr(0) > 0 || meta.value.balance.GetOr(0) > 0) then
      var m := meta.value;
      v.(name := if HasText(m.name) then m.name.value else v.name,
         balance := m.balance.GetOr(v.balance),
         unlock := m.unlock.GetOr(v.unlock),
         created := if v.created > 0 then v.created else CreatedOf(m),
         status :=
           if m.chainStatus == Some(WithdrawnOnChain) then Withdrawn
           else if m.chainStatus == Some(ArchivedOnChain) then Archived
           else if nowSec >= m.unlock.GetOr(0) then Unlocked
           else Locked)
    else
      v.(balance := 0, unlock := 0,
         created := if v.created > 0 then v.created else if meta.Some? then CreatedOf(meta.value) else 0,
         status := Archived)
  }

  /** A row that has its times, or is archived, is left alone; whatever happens, it stays the same vault's. */
  lemma RealRowIsKept(v: Row, metas: map<string, RemoteMeta>, nowSec: int)
    ensures v.status == Archived || (v.unlock > 0 && v.created > 0) ==> Sanitise(v, metas, nowSec) == v
    ensures var r := Sanitise(v, metas, nowSec); r.vaultId == v.vaultId && r.owner == v.owner
    ensures Sanitise(v, metas, nowSec).created ==
      if v.status == Archived || v.created > 0 then v.created
      else if v.vaultId !in metas then 0
      else var m := metas[v.vaultId];
           if m.createdAt.Some? then m.createdAt.value else if m.updatedAt.Some? then m.updatedAt.value else 0
  {
  }

  /** A record with anything to rescue a row by: an unlock time or a balance. */
  predicate HasSnapshot(m: RemoteMeta) {
    (m.unlock.Some? && m.unlock.value > 0) || (m.balance.Some? && m.balance.value > 0)
  }

  /**
    * A row without its times is rebuilt from a record with a snapshot: its balance and unlock time are the record's,
    * as far as it has them, and its status is the one the record states, or else what its unlock time comes to.
    */
  lemma RescuedRow(v: Row, m: RemoteMeta, metas: map<string, RemoteMeta>, nowSec: int)
    requires v.status != Archived && (v.unlock <= 0 || v.created <= 0)
    requires v.vaultId in metas && metas[v.vaultId] == m && HasSnapshot(m)
    ensures var r := Sanitise(v, metas, nowSec);
      && r.balance == (if m.balance.Some? then m.balance.value else v.balance)
      && r.unlock == (if m.unlock.Some? then m.unlock.value else v.unlock)
      && r.name == (if HasText(m.name) then m.name.value else v.name)
      && (r.status == Withdrawn <==> m.chainStatus == Some(WithdrawnOnChain))
      && (r.status == Archived <==> m.chainStatus == Some(ArchivedOnChain))
      && (r.status == Unlocked || r.status == Locked ==>
            (r.status == Unlocked <==> nowSec >= if m.unlock.Some? then m.unlock.value else 0))
  {
  }

  /** Without a snapshot it is archived and empty. */
  lemma UnrescuedRow(v: Row, metas: map<string, RemoteMeta>, nowSec: int)
    requires v.status != Archived && (v.unlock <= 0 || v.created <= 0)
    requires v.vaultId in metas ==> !HasSnapshot(metas[v.vaultId])
    ensures var r := Sanitise(v, metas, nowSec);
      r.status == Archived && r.balance == 0 && r.unlock == 0 && r.name == v.name
  {
  }

  predicate Anchored(v: Row, metas: map<string, RemoteMeta>) {
    v.status != Archived || v.vaultId in metas
  }

  /** The live rows that are shown: sanitised, without archived rows the backend knows nothing of. */
  function LiveRows(live: seq<Row>, metas: map<string, RemoteMeta>, nowSec: int): (rows: seq<Row>) {
    if live == [] then []
    else
      var rest := LiveRows(live[..|live| - 1], metas, nowSec);
      var v := Sanitise(live[|live| - 1], metas, nowSec);
      if Anchored(v, metas) then rest + [v] else rest
  }

  /** A live row survives exactly when it is real or the backend can anchor it. */
  predicate Survives(v: Row, metas: map<string, RemoteMeta>) {
    v.vaultId in metas || (v.status != Archived && !LooksZero(v))
  }

  lemma SurvivesIffAnchored(v: Row, metas: map<string, RemoteMeta>, nowSec: int)
    ensures Anchored(Sanitise(v, metas, nowSec), metas) <==> Survives(v, metas)
    ensures Sanitise(v, metas, nowSec).vaultId == v.vaultId
  {
  }

  lemma {:induction false} LiveRowsIds(live: seq<Row>, metas: map<string, RemoteMeta>, nowSec: int)
    ensures forall id :: id in Ids(LiveRows(live, metas, nowSec)) <==>
              exists v :: v in live && v.vaultId == id && Survives(v, metas)
  {
    if live != [] {
      var front, v := live[..|live| - 1], live[|live| - 1];
      LiveRowsIds(front, metas, nowSec);
      SurvivesIffAnchored(v, metas, nowSec);
      assert live == front + [v];
      assert Ids(LiveRows(live, metas, nowSec)) ==
             Ids(LiveRows(front, metas, nowSec)) + (if Survives(v, metas) then {v.vaultId} else {});
    }
  }

  lemma {:induction false} LiveRowsAnchored(live: seq<Row>, metas: map<string, RemoteMeta>, nowSec: int)
    ensures forall r :: r in LiveRows(live, metas, nowSec) ==> Anchored(r, metas)
    ensures DistinctIds(live) ==> DistinctIds(LiveRows(live, metas, nowSec))
  {
    if live != [] {
      var front, v := live[..|live| - 1], live[|live| - 1];
      LiveRowsAnchored(front, metas, nowSec);
      LiveRowsIds(front, metas, nowSec);
      SurvivesIffAnchored(v, metas, nowSec);
      var before := LiveRows(front, metas, nowSec);
      if DistinctIds(live) {
        assert DistinctIds(front);
        forall r | r in before
          ensures r.vaultId != v.vaultId
        {
          assert r.vaultId in Ids(before);
          var u :| u in front && u.vaultId == r.vaultId;
          var i :| 0 <= i < |front| && front[i] == u;
          assert live[i].vaultId != live[|live| - 1].vaultId;
        }
      }
    }
  }

  /**
    * Sanitising is meant to leave no row with uninitialised times. It leaves one exactly when the backend's
    * snapshot is used, does not say archived, and itself lacks the time the row is missing.
    */
  lemma SanitisedLooksZeroIff(v: Row, metas: map<string, RemoteMeta>, nowSec: int)
    requires forall id :: id in metas ==> metas[id].vaultId == id
    ensures LooksZero(Sanitise(v, metas, nowSec)) <==>
            && LooksZero(v) && v.vaultId in metas
            && var m := metas[v.vaultId];
               && (m.unlock.GetOr(0) > 0 || m.balance.GetOr(0) > 0)
               && m.chainStatus != Some(ArchivedOnChain)
               && (m.unlock.GetOr(v.unlock) <= 0 || (v.created <= 0 && CreatedOf(m) <= 0))
  {
  }

  /** Such a row: a record with a balance but no unlock time turns an empty live row into one "unlocked" in 1970. */
  lemma ZeroRowCanSurvive()
    ensures var v := Row("0", "owner", "Vault #0", 0, 0, 1_700_000_000, Locked);
      var m := RemoteMeta("0", None, Some(5), None, Some(LiveOnChain), None, None);
      var w := Sanitise(v, map["0" := m], 1_700_000_000);
      w.status == Unlocked && w.unlock == 0 && w.balance == 5
  {
    var m := RemoteMeta("0", None, Some(5), None, Some(LiveOnChain), None, None);
    assert Lookup(map["0" := m], "0") == Some(m);
  }

  // ------------------------------------------------------------------ the overlay

  /**
    * The row for a backend record that no live row covers. A record that still says "live" is taken to be stale:
    * its row is shown as withdrawn with nothing in it, and the record is to be corrected.
    */
  function OverlayRow(owner: Address, r: RemoteMeta): Row {
    var stale := r.chainStatus == Some(LiveOnChain);
    Row(r.vaultId, owner,
        if HasText(r.name) then r.name.value else "Vault #" + r.vaultId,
        if stale then 0 else r.balance.GetOr(0),
        r.unlock.GetOr(0),
        CreatedOf(r),
        if stale || r.chainStatus == Some(WithdrawnOnChain) then Withdrawn else Archived)
  }

  /** The overlay row field by field: as its record has it, but empty when the record still says "live". */
  lemma OverlayRowIs(owner: Address, m: RemoteMeta)
    ensures var r := OverlayRow(owner, m);
      && r.vaultId == m.vaultId && r.owner == owner
      && r.name == (if HasText(m.name) then m.name.value else "Vault #" + m.vaultId)
      && r.balance == (if m.chainStatus == Some(LiveOnChain) || m.balance.None? then 0 else m.balance.value)
      && r.unlock == (if m.unlock.Some? then m.unlock.value else 0)
      && r.created == (if m.createdAt.Some? then m.createdAt.value
                       else if m.updatedAt.Some? then m.updatedAt.value else 0)
      && (r.status == Withdrawn <==> m.chainStatus == Some(LiveOnChain) || m.chainStatus == Some(WithdrawnOnChain))
      && (r.status != Withdrawn ==> r.status == Archived)
  {
  }

  function Overlay(owner: Address, remotes: seq<RemoteMeta>, liveIds: set<string>): seq<Row> {
    if remotes == [] then []
    else
      var rest := Overlay(owner, remotes[..|remotes| - 1], liveIds);
      var r := remotes[|remotes| - 1];
      if r.vaultId in liveIds then rest else rest + [OverlayRow(owner, r)]
  }

  /** The records the overlay asks the backend to mark withdrawn. */
  function Dismissed(remotes: seq<RemoteMeta>, liveIds: set<string>): seq<string> {
    if remotes == [] then []
    else
      var rest := Dismissed(remotes[..|remotes| - 1], liveIds);
      var r := remotes[|remotes| - 1];
      if r.vaultId !in liveIds && r.chainStatus == Some(LiveOnChain) then rest + [r.vaultId] else rest
  }

  /** The overlay as it is written: a status is first read off the record and then overruled when it is stale. */
  method BuildArchivedOverlay(owner: Address, remotes: seq<RemoteMeta>, liveIds: set<string>, nowSec: int)
    returns (out: seq<Row>, dismissed: seq<string>)
    ensures out == Overlay(owner, remotes, liveIds)
    ensures dismissed == Dismissed(remotes, liveIds)
  {
    out, dismissed := [], [];
    for n := 0 to |remotes|
      invariant out == Overlay(owner, remotes[..n], liveIds)
      invariant dismissed == Dismissed(remotes[..n], liveIds)
    {
      assert remotes[..n + 1][..n] == remotes[..n];
      var r := remotes[n];
      if r.vaultId in liveIds {
        continue;
      }
      var createdTs := CreatedOf(r);
      var status := Archived;
      if r.chainStatus == Some(WithdrawnOnChain) {
        status := Withdrawn;
      } else if r.chainStatus == Some(LiveOnChain) && r.unlock.GetOr(0) > 0 {
        status := if nowSec >= r.unlock.GetOr(0) then Unlocked else Locked;
      }
      var balance := r.balance.GetOr(0);
      if r.chainStatus == Some(LiveOnChain) {
        status := Withdrawn;
        balance := 0;
        dismissed := dismissed + [r.vaultId];
      }
      var name := if HasText(r.name) then r.name.value else "Vault #" + r.vaultId;
      out := out + [Row(r.vaultId, owner, name, balance, r.unlock.GetOr(0), createdTs, status)];
    }
    assert remotes[..|remotes|] == remotes;
  }

  ghost predicate DistinctMetas(metas: seq<RemoteMeta>) {
    forall i, j :: 0 <= i < j < |metas| ==> metas[i].vaultId != metas[j].vaultId
  }

  ghost predicate Names(metas: seq<RemoteMeta>, id: string) {
    exists m :: m in metas && m.vaultId == id
  }

  /** Overlay rows are terminal. */
  lemma {:induction false} OverlayIsTerminal(owner: Address, remotes: seq<RemoteMeta>, liveIds: set<string>)
    ensures forall r :: r in Overlay(owner, remotes, liveIds) ==> r.status == Archived || r.status == Withdrawn
  {
    if remotes != [] {
      OverlayIsTerminal(owner, remotes[..|remotes| - 1], liveIds);
    }
  }

  /** There is an overlay row for exactly the records without a live row. */
  lemma {:induction false} OverlayIds(owner: Address, remotes: seq<RemoteMeta>, liveIds: set<string>)
    ensures forall id :: id in Ids(Overlay(owner, remotes, liveIds)) <==> id !in liveIds && Names(remotes, id)
  {
    if remotes != [] {
      var front, r := remotes[..|remotes| - 1], remotes[|remotes| - 1];
      OverlayIds(owner, front, liveIds);
      assert remotes == front + [r];
      assert Ids(Overlay(owner, remotes, liveIds)) ==
             Ids(Overlay(owner, front, liveIds)) + (if r.vaultId in liveIds then {} else {r.vaultId});
      assert forall id :: Names(remotes, id) <==> Names(front, id) || id == r.vaultId;
    }
  }

  lemma {:induction false} OverlayIsDistinct(owner: Address, remotes: seq<RemoteMeta>, liveIds: set<string>)
    requires DistinctMetas(remotes)
    ensures DistinctIds(Overlay(owner, remotes, liveIds))
  {
    if remotes != [] {
      var front, r := remotes[..|remotes| - 1], remotes[|remotes| - 1];
      OverlayIsDistinct(owner, front, liveIds);
      OverlayIds(owner, front, liveIds);
      var before := Overlay(owner, front, liveIds);
      assert forall x :: x in before ==> x.vaultId in Ids(before) && x.vaultId != r.vaultId;
    }
  }

  // ------------------------------------------------------------------ healing stale records

  /** What the dismissal request does to a record: withdrawn, nothing left, everything else as it was. */
  function Dismiss(m: RemoteMeta): RemoteMeta {
    m.(chainStatus := Some(WithdrawnOnChain), balance := Some(0))
  }

  function ApplyDismissals(metas: seq<RemoteMeta>, dismissed: seq<string>): (r: seq<RemoteMeta>)
    ensures |r| == |metas|
  {
    seq(|metas|, i requires 0 <= i < |metas| =>
          if metas[i].vaultId in dismissed then Dismiss(metas[i]) else metas[i])
  }

  lemma {:induction false} DismissedMeaning(remotes: seq<RemoteMeta>, liveIds: set<string>)
    ensures forall id :: id in Dismissed(remotes, liveIds) <==>
              id !in liveIds && exists m :: m in remotes && m.vaultId == id && m.chainStatus == Some(LiveOnChain)
  {
    if remotes != [] {
      DismissedMeaning(remotes[..|remotes| - 1], liveIds);
      assert remotes == remotes[..|remotes| - 1] + [remotes[|remotes| - 1]];
    }
  }

  lemma {:induction false} HealedOverlay(owner: Address, metas: seq<RemoteMeta>, dismissed: seq<string>,
                                         liveIds: set<string>)
    requires forall m :: m in metas && m.vaultId in dismissed ==> m.chainStatus == Some(LiveOnChain)
    requires forall m :: m in metas && m.vaultId !in liveIds && m.chainStatus == Some(LiveOnChain) ==>
               m.vaultId in dismissed
    ensures Overlay(owner, ApplyDismissals(metas, dismissed), liveIds) == Overlay(owner, metas, liveIds)
    ensures Dismissed(ApplyDismissals(metas, dismissed), liveIds) == []
  {
    if metas != [] {
      var n := |metas| - 1;
      HealedOverlay(owner, metas[..n], dismissed, liveIds);
      assert ApplyDismissals(metas, dismissed)[..n] == ApplyDismissals(metas[..n], dismissed);
      assert metas[n] in metas;
    }
  }

  /** Once the dismissals have been carried out, rebuilding gives the same rows and asks for nothing more. */
  lemma OverlayHealsItself(owner: Address, metas: seq<RemoteMeta>, liveIds: set<string>)
    requires DistinctMetas(metas)
    ensures var healed := ApplyDismissals(metas, Dismissed(metas, liveIds));
      && Overlay(owner, healed, liveIds) == Overlay(owner, metas, liveIds)
      && Dismissed(healed, liveIds) == []
  {
    DismissedMeaning(metas, liveIds);
    HealedOverlay(owner, metas, Dismissed(metas, liveIds), liveIds);
  }

  // ------------------------------------------------------------------ the whole list

  /** The comparator of the list: archived rows last, each group newest first. */
  predicate ShownBefore(a: Row, b: Row) {
    if a.status == Archived && b.status != Archived then false
    else if b.status == Archived && a.status != Archived then true
    else a.created > b.created
  }

  function Compose(owner: Address, live: seq<Row>, metas: seq<RemoteMeta>, nowSec: int): seq<Row> {
    var shown := LiveRows(live, MetaById(metas), nowSec);
    Sort(shown + Overlay(owner, metas, Ids(shown)), ShownBefore)
  }

  lemma KnownIds(metas: seq<RemoteMeta>)
    ensures forall id :: id in MetaById(metas) <==> Names(metas, id)
  {
  }

  /** The rows of the list before they are sorted. */
  function Parts(owner: Address, live: seq<Row>, metas: seq<RemoteMeta>, nowSec: int): seq<Row> {
    var shown := LiveRows(live, MetaById(metas), nowSec);
    shown + Overlay(owner, metas, Ids(shown))
  }

  lemma PartsAreDistinct(owner: Address, live: seq<Row>, metas: seq<RemoteMeta>, nowSec: int)
    requires DistinctIds(live) && DistinctMetas(metas)
    ensures DistinctIds(Parts(owner, live, metas, nowSec))
  {
    var shown := LiveRows(live, MetaById(metas), nowSec);
    var overlay := Overlay(owner, metas, Ids(shown));
    LiveRowsAnchored(live, MetaById(metas), nowSec);
    OverlayIds(owner, metas, Ids(shown));
    OverlayIsDistinct(owner, metas, Ids(shown));
    assert forall r :: r in overlay ==> r.vaultId in Ids(overlay);
    assert forall r :: r in shown ==> r.vaultId in Ids(shown);
  }

  lemma PartsIds(owner: Address, live: seq<Row>, metas: seq<RemoteMeta>, nowSec: int, id: string)
    ensures id in Ids(Parts(owner, live, metas, nowSec)) <==>
            Names(metas, id)
            || (exists v :: v in live && v.vaultId == id && v.status != Archived && !LooksZero(v))
  {
    var shown := LiveRows(live, MetaById(metas), nowSec);
    var overlay := Overlay(owner, metas, Ids(shown));
    KnownIds(metas);
    LiveRowsIds(live, MetaById(metas), nowSec);
    OverlayIds(owner, metas, Ids(shown));
    assert Ids(shown + overlay) == Ids(shown) + Ids(overlay);
  }

  lemma PartsAreAnchored(owner: Address, live: seq<Row>, metas: seq<RemoteMeta>, nowSec: int, r: Row)
    requires r in Parts(owner, live, metas, nowSec) && r.status == Archived
    ensures Names(metas, r.vaultId)
  {
    var shown := LiveRows(live, MetaById(metas), nowSec);
    var overlay := Overlay(owner, metas, Ids(shown));
    KnownIds(metas);
    LiveRowsAnchored(live, MetaById(metas), nowSec);
    OverlayIds(owner, metas, Ids(shown));
    if r in overlay {
      assert r.vaultId in Ids(overlay);
    }
  }

  lemma ShownOrder(rows: seq<Row>, i: nat, j: nat)
    requires Sorted(rows, ShownBefore) && i < j < |rows|
    ensures rows[i].status == Archived ==> rows[j].status == Archived
    ensures (rows[i].status == Archived <==> rows[j].status == Archived) ==> rows[i].created >= rows[j].created
  {
    assert !ShownBefore(rows[j], rows[i]);
  }

  /**
    * The list shows each vault at most once; every vault the backend knows, and of the others exactly the live
    * rows that are real. Archived rows all have a backend record and come after all others, and each group is
    * ordered newest first.
    */
  lemma ListComposition(owner: Address, live: seq<Row>, metas: seq<RemoteMeta>, nowSec: int)
    requires DistinctIds(live) && DistinctMetas(metas)
    ensures var list := Compose(owner, live, metas, nowSec);
      && DistinctIds(list)
      && (forall id :: id in Ids(list) <==>
            Names(metas, id)
            || (exists v :: v in live && v.vaultId == id && v.status != Archived && !LooksZero(v)))
      && (forall r :: r in list && r.status == Archived ==> Names(metas, r.vaultId))
      && (forall i, j :: 0 <= i < j < |list| ==>
            (list[i].status == Archived ==> list[j].status == Archived)
            && ((list[i].status == Archived <==> list[j].status == Archived) ==>
                  list[i].created >= list[j].created))
  {
    var parts := Parts(owner, live, metas, nowSec);
    var list := Compose(owner, live, metas, nowSec);
    PartsAreDistinct(owner, live, metas, nowSec);
    SortKeepsDistinct(parts, ShownBefore);
    SameElements(parts, ShownBefore);
    SortSorts(parts, ShownBefore);
    assert Ids(list) == Ids(parts);
    forall id
      ensures id in Ids(list) <==>
              Names(metas, id)
              || (exists v :: v in live && v.vaultId == id && v.status != Archived && !LooksZero(v))
    {
      PartsIds(owner, live, metas, nowSec, id);
    }
    forall r | r in list && r.status == Archived
      ensures Names(metas, r.vaultId)
    {
      PartsAreAnchored(owner, live, metas, nowSec, r);
    }
    forall i, j | 0 <= i < j < |list|
      ensures (list[i].status == Archived ==> list[j].status == Archived)
              && ((list[i].status == Archived <==> list[j].status == Archived) ==>
                    list[i].created >= list[j].created)
    {
      ShownOrder(list, i, j);
    }
  }

  // ------------------------------------------------------------------ the next listing

  lemma {:induction false} LiveRowsLookUp(live: seq<Row>, metas: map<string, RemoteMeta>,
                                          metas': map<string, RemoteMeta>, nowSec: int)
    requires forall x :: x in live ==> Lookup(metas, x.vaultId) == Lookup(metas', x.vaultId)
    ensures LiveRows(live, metas, nowSec) == LiveRows(live, metas', nowSec)
  {
    if live != [] {
      var front, x := live[..|live| - 1], live[|live| - 1];
      LiveRowsLookUp(front, metas, metas', nowSec);
      SurvivesIffAnchored(x, metas, nowSec);
      SurvivesIffAnchored(x, metas', nowSec);
      assert x in live && (x.vaultId in metas <==> x.vaultId in metas');
    }
  }

  lemma {:induction false} HealedLookup(metas: seq<RemoteMeta>, dismissed: seq<string>, id: string)
    requires id !in dismissed
    ensures Lookup(MetaById(ApplyDismissals(metas, dismissed)), id) == Lookup(MetaById(metas), id)
  {
    if metas != [] {
      var n := |metas| - 1;
      HealedLookup(metas[..n], dismissed, id);
      assert ApplyDismissals(metas, dismissed)[..n] == ApplyDismissals(metas[..n], dismissed);
    }
  }

  /** A live row with a record is always shown, so no record that is dismissed has one. */
  lemma DismissedIsNotLive(live: seq<Row>, metas: seq<RemoteMeta>, nowSec: int, x: Row)
    requires x in live
    ensures x.vaultId !in Dismissed(metas, Ids(LiveRows(live, MetaById(metas), nowSec)))
  {
    var shown := LiveRows(live, MetaById(metas), nowSec);
    KnownIds(metas);
    LiveRowsIds(live, MetaById(metas), nowSec);
    DismissedMeaning(metas, Ids(shown));
    if Names(metas, x.vaultId) {
      assert Survives(x, MetaById(metas));
    }
  }

  /** Once the dismissals have been carried out, the same live rows give the same list, and nothing more to dismiss. */
  lemma ListHealsItself(owner: Address, live: seq<Row>, metas: seq<RemoteMeta>, nowSec: int)
    requires DistinctMetas(metas)
    ensures var healed := ApplyDismissals(metas, Dismissed(metas, Ids(LiveRows(live, MetaById(metas), nowSec))));
      && Compose(owner, live, healed, nowSec) == Compose(owner, live, metas, nowSec)
      && Dismissed(healed, Ids(LiveRows(live, MetaById(healed), nowSec))) == []
  {
    var shown := LiveRows(live, MetaById(metas), nowSec);
    var dismissed := Dismissed(metas, Ids(shown));
    var healed := ApplyDismissals(metas, dismissed);
    forall x | x in live
      ensures Lookup(MetaById(healed), x.vaultId) == Lookup(MetaById(metas), x.vaultId)
    {
      DismissedIsNotLive(live, metas, nowSec, x);
      HealedLookup(metas, dismissed, x.vaultId);
    }
    LiveRowsLookUp(live, MetaById(healed), MetaById(metas), nowSec);
    OverlayHealsItself(owner, metas, Ids(shown));
  }

  lemma {:induction false} FilterConcat(a: seq<Row>, b: seq<Row>, keep: Row -> bool)
    ensures Filter(a + b, keep) == Filter(a, keep) + Filter(b, keep)
  {
    if b == [] {
      assert a + b == a;
    } else {
      assert (a + b)[..|a + b| - 1] == a + b[..|b| - 1];
      FilterConcat(a, b[..|b| - 1], keep);
    }
  }

  /** Rows the comparator does not tell apart stay as they were put together: live rows first, then the overlay's. */
  lemma TiedRowsKeepOrder(owner: Address, live: seq<Row>, metas: seq<RemoteMeta>, nowSec: int, tied: Row -> bool)
    requires forall x, y :: tied(x) && tied(y) ==> !ShownBefore(x, y)
    ensures var shown := LiveRows(live, MetaById(metas), nowSec);
      Filter(Compose(owner, live, metas, nowSec), tied) ==
      Filter(shown, tied) + Filter(Overlay(owner, metas, Ids(shown)), tied)
  {
    var shown := LiveRows(live, MetaById(metas), nowSec);
    SortKeepsTies(Parts(owner, live, metas, nowSec), ShownBefore, tied);
    FilterConcat(shown, Overlay(owner, metas, Ids(shown)), tied);
  }

  /**
    * `listVaults` after its reads: simulation wins over events, events over the cache, and what is read is
    * merged with the cache.
    */
  method ListVaults(owner: Address, simulated: Option<seq<Row>>, fromEvents: Option<seq<Row>>, cached: seq<Row>,
                    merge: (seq<Row>, seq<Row>) -> seq<Row>, metas: seq<RemoteMeta>, nowSec: int)
    returns (list: seq<Row>, dismissed: seq<string>, live: seq<Row>)
    ensures live == if simulated.Some? then merge(cached, simulated.value)
                    else if fromEvents.Some? && |fromEvents.value| > 0 then merge(cached, fromEvents.value)
                    else cached
    ensures list == Compose(owner, live, metas, nowSec)
    ensures dismissed == Dismissed(metas, Ids(LiveRows(live, MetaById(metas), nowSec)))
  {
    if simulated.Some? {
      live := merge(cached, simulated.value);
    } else if fromEvents.Some? && |fromEvents.value| > 0 {
      live := merge(cached, fromEvents.value);
    } else if |cached| > 0 {
      live := cached;
    } else {
      live := [];
    }
    var metaById := MetaById(metas);
    var shown := LiveRows(live, metaById, nowSec);
    var overlay;
    overlay, dismissed := BuildArchivedOverlay(owner, metas, Ids(shown), nowSec);
    list := Sort(shown + overlay, ShownBefore);
  }

  // ------------------------------------------------------------------ totals

  datatype Summary = Summary(totalLocked: int, totalUnlocked: int, active: nat, completed: nat)

  function Add(s: Summary, v: Row): Summary {
    match v.status
    case Locked => s.(totalLocked := s.totalLocked + v.balance, active := s.active + 1)
    case Unlocked => s.(totalUnlocked := s.totalUnlocked + v.balance, active := s.active + 1)
    case _ => s.(completed := s.completed + 1)
  }

  function Totals(rows: seq<Row>): (s: Summary)
    ensures s.active + s.completed == |rows|
  {
    if rows == [] then Summary(0, 0, 0, 0)
    else Add(Totals(rows[..|rows| - 1]), rows[|rows| - 1])
  }

  method Summarise(vaults: seq<Row>) returns (s: Summary)
    ensures s == Totals(vaults)
    ensures s.active + s.completed == |vaults|
  {
    var totalLocked, totalUnlocked, active, completed := 0, 0, 0, 0;
    for n := 0 to |vaults|
      invariant Summary(totalLocked, totalUnlocked, active, completed) == Totals(vaults[..n])
    {
      assert vaults[..n + 1][..n] == vaults[..n];
      var v := vaults[n];
      if v.status == Locked {
        totalLocked := totalLocked + v.balance;
        active := active + 1;
      } else if v.status == Unlocked {
        totalUnlocked := totalUnlocked + v.balance;
        active := active + 1;
      } else {
        completed := completed + 1;
      }
    }
    assert vaults[..|vaults|] == vaults;
    s := Summary(totalLocked, totalUnlocked, active, completed);
  }

  predicate HasStatus(r: Row, status: Status) {
    r.status == status
  }

  function Balances(rows: seq<Row>): int {
    if rows == [] then 0 else rows[0].balance + Balances(rows[1..])
  }

  lemma {:induction false} BalancesAppend(rows: seq<Row>, x: Row)
    ensures Balances(rows + [x]) == Balances(rows) + x.balance
  {
    if rows == [] {
      assert rows + [x] == [x];
    } else {
      assert (rows + [x])[1..] == rows[1..] + [x];
      BalancesAppend(rows[1..], x);
    }
  }

  /** Each total is that of the rows of its status: locked, unlocked, either of them, or neither. */
  lemma {:induction false} TotalsAre(rows: seq<Row>)
    ensures Totals(rows).totalLocked == Balances(Filter(rows, r => HasStatus(r, Locked)))
    ensures Totals(rows).totalUnlocked == Balances(Filter(rows, r => HasStatus(r, Unlocked)))
    ensures Totals(rows).active ==
            |Filter(rows, r => HasStatus(r, Locked))| + |Filter(rows, r => HasStatus(r, Unlocked))|
    ensures Totals(rows).completed ==
            |Filter(rows, r => HasStatus(r, Withdrawn))| + |Filter(rows, r => HasStatus(r, Archived))|
  {
    if rows != [] {
      var front, x := rows[..|rows| - 1], rows[|rows| - 1];
      TotalsAre(front);
      BalancesAppend(Filter(front, r => HasStatus(r, Locked)), x);
      BalancesAppend(Filter(front, r => HasStatus(r, Unlocked)), x);
    }
  }

  lemma AddCommutes(s: Summary, x: Row, z: Row)
    ensures Add(Add(s, x), z) == Add(Add(s, z), x)
  {
  }

  lemma TotalsOfAppend(rows: seq<Row>, x: Row)
    ensures Totals(rows + [x]) == Add(Totals(rows), x)
  {
    assert (rows + [x])[..|rows|] == rows;
  }

  lemma {:induction false} TotalsOfInsert(x: Row, rows: seq<Row>, before: (Row, Row) -> bool)
    ensures Totals(Insert(x, rows, before)) == Add(Totals(rows), x)
  {
    if rows == [] || !before(x, rows[|rows| - 1]) {
      TotalsOfAppend(rows, x);
    } else {
      var rest, z := rows[..|rows| - 1], rows[|rows| - 1];
      TotalsOfInsert(x, rest, before);
      TotalsOfAppend(Insert(x, rest, before), z);
      AddCommutes(Totals(rest), x, z);
    }
  }

  /** Totals do not depend on the order of the rows. */
  lemma {:induction false} TotalsOfSort(rows: seq<Row>, before: (Row, Row) -> bool)
    ensures Totals(Sort(rows, before)) == Totals(rows)
  {
    if rows != [] {
      TotalsOfSort(rows[..|rows| - 1], before);
      TotalsOfInsert(rows[|rows| - 1], Sort(rows[..|rows| - 1], before), before);
    }
  }

  lemma {:induction false} TerminalRowsOnlyComplete(rows: seq<Row>, more: seq<Row>)
    requires forall r :: r in more ==> r.status == Archived || r.status == Withdrawn
    ensures var s := Totals(rows);
      Totals(rows + more) == s.(completed := s.completed + |more|)
  {
    if more == [] {
      assert rows + more == rows;
    } else {
      var front := more[..|more| - 1];
      assert (rows + more)[..|rows + more| - 1] == rows + front;
      assert more[|more| - 1] in more;
      TerminalRowsOnlyComplete(rows, front);
    }
  }

  /** The money totals of the whole list come from the live rows alone; overlay rows only count as completed. */
  lemma SummaryIgnoresOverlay(owner: Address, live: seq<Row>, metas: seq<RemoteMeta>, nowSec: int)
    ensures var shown := LiveRows(live, MetaById(metas), nowSec);
      var s, t := Totals(shown), Totals(Compose(owner, live, metas, nowSec));
      t == s.(completed := s.completed + |Overlay(owner, metas, Ids(shown))|)
  {
    var shown := LiveRows(live, MetaById(metas), nowSec);
    var overlay := Overlay(owner, metas, Ids(shown));
    OverlayIsTerminal(owner, metas, Ids(shown));
    TotalsOfSort(shown + overlay, ShownBefore);
    TerminalRowsOnlyComplete(shown, overlay);
  }

  // ------------------------------------------------------------------ snapshots sent back

  datatype Snapshot = Snapshot(owner: Address, vaultId: string, balance: int, unlock: int, withdrawn: bool)

  /** A shown row is sent back when it is not archived and has an unlock time. */
  predicate Sendable(v: Row) {
    v.status != Archived && v.unlock > 0
  }

  function SnapshotOf(owner: Address, v: Row): Snapshot {
    Snapshot(owner, v.vaultId, v.balance, v.unlock, v.status == Withdrawn)
  }

  /** Sends snapshots to the backend; a withdrawn vault is sent at most once in a session. */
  class SnapshotWriter {
    var frozen: set<(Address, string)>
    var sent: seq<Snapshot>

    ghost predicate Valid()
      reads this
    {
      && (forall key :: key in frozen <==>
            exists i :: 0 <= i < |sent| && sent[i].withdrawn && (sent[i].owner, sent[i].vaultId) == key)
      && (forall i, j :: 0 <= i < j < |sent| && sent[i].withdrawn && sent[j].withdrawn ==>
            (sent[i].owner, sent[i].vaultId) != (sent[j].owner, sent[j].vaultId))
    }

    constructor ()
      ensures Valid() && sent == []
    {
      frozen, sent := {}, [];
    }

    method Push(snap: Snapshot)
      requires Valid()
      modifies this
      ensures Valid()
      ensures frozen == old(frozen) + (if snap.withdrawn then {(snap.owner, snap.vaultId)} else {})
      ensures sent == if snap.withdrawn && (snap.owner, snap.vaultId) in old(frozen)
                      then old(sent) else old(sent) + [snap]
    {
      var key := (snap.owner, snap.vaultId);
      if snap.withdrawn {
        if key in frozen {
          return;
        }
        frozen := frozen + {key};
      }
      sent := sent + [snap];
      assert forall i :: 0 <= i < |old(sent)| ==> sent[i] == old(sent)[i];
      assert snap.withdrawn ==> sent[|sent| - 1].withdrawn;
    }

    /**
      * The write-back of one listing: every shown live row with real values has been sent, this time or before, and
      * nothing is sent that is not the snapshot of one of them.
      */
    method WriteBack(owner: Address, rows: seq<Row>)
      requires Valid()
      modifies this
      ensures Valid() && old(sent) <= sent
      ensures forall v :: v in rows && v.status != Archived && v.unlock > 0 ==>
        if v.status == Withdrawn then (owner, v.vaultId) in frozen else SnapshotOf(owner, v) in sent
      ensures forall x :: x in sent[|old(sent)|..] ==>
        exists v :: v in rows && v.status != Archived && v.unlock > 0 && x == SnapshotOf(owner, v)
    {
      for n := 0 to |rows|
        invariant Valid() && old(sent) <= sent
        invariant forall i :: 0 <= i < n && Sendable(rows[i]) ==>
          if rows[i].status == Withdrawn then (owner, rows[i].vaultId) in frozen else SnapshotOf(owner, rows[i]) in sent
        invariant forall x :: x in sent[|old(sent)|..] ==>
          exists v :: v in rows && Sendable(v) && x == SnapshotOf(owner, v)
      {
        var v := rows[n];
        if v.status != Archived && v.unlock > 0 {
          ghost var before := sent;
          Push(SnapshotOf(owner, v));
          forall x | x in sent[|old(sent)|..]
            ensures x in before[|old(sent)|..] || x == SnapshotOf(owner, v)
          {
            assert sent == before || sent[|old(sent)|..] == before[|old(sent)|..] + [SnapshotOf(owner, v)];
          }
          assert v in rows;
        }
      }
    }
  }
}
