/** The History tab: live events, completed by a reconstructed "create" row for each vault whose own is missing. */
module History {
  import opened Base
  import opened Events
  import opened Rows
  import opened Replay
  import opened StableSort
  import opened VaultList

  /** How many "create" rows a list has for a vault. */
  function Creates(rows: seq<ParsedEvent>, id: string): nat {
    if rows == [] then 0
    else
      var e := rows[|rows| - 1];
      Creates(rows[..|rows| - 1], id) + (if e.kind == Create && e.vaultId == id then 1 else 0)
  }

  function CreatedIds(rows: seq<ParsedEvent>): (ids: set<string>)
  {
    set e | e in rows && e.kind == Create :: e.vaultId
  }

  function Reconstructed(owner: Address, r: RemoteMeta): ParsedEvent {
    ParsedEvent("meta:" + r.vaultId, r.vaultId, owner, Create, 0,
                if HasText(r.name) then r.name.value + " · reconstructed from backend metadata"
                else "Reconstructed from backend metadata (on-chain event archived)",
                CreatedOf(r))
  }

  function Synthetic(owner: Address, created: set<string>, remotes: seq<RemoteMeta>): seq<ParsedEvent> {
    if remotes == [] then []
    else
      var r := remotes[|remotes| - 1];
      Synthetic(owner, created, remotes[..|remotes| - 1])
      + (if r.vaultId in created then [] else [Reconstructed(owner, r)])
  }

  /** `remotes` is `None` when there is no backend or it does not answer. */
  method FetchArchivedCreateEvents(owner: Address, liveEvents: seq<ParsedEvent>, remotes: Option<seq<RemoteMeta>>)
    returns (out: seq<ParsedEvent>)
    ensures out == Synthetic(owner, CreatedIds(liveEvents), remotes.GetOr([]))
  {
    out := [];
    if remotes.None? {
      return;
    }
    var rs := remotes.value;
    var liveCreatedIds := CreatedIds(liveEvents);
    for n := 0 to |rs|
      invariant out == Synthetic(owner, liveCreatedIds, rs[..n])
    {
      assert rs[..n + 1][..n] == rs[..n];
      if rs[n].vaultId in liveCreatedIds {
        continue;
      }
      out := out + [Reconstructed(owner, rs[n])];
    }
    assert rs[..|rs|] == rs;
  }

  predicate NewerEvent(a: ParsedEvent, b: ParsedEvent) {
    a.timestamp > b.timestamp
  }

  function Transactions(owner: Address, all: seq<ParsedEvent>, remotes: seq<RemoteMeta>): seq<ParsedEvent> {
    Sort(OfOwner(all, owner) + Synthetic(owner, CreatedIds(all), remotes), NewerEvent)
  }

  method AllTransactions(owner: Address, all: seq<ParsedEvent>, remotes: Option<seq<RemoteMeta>>)
    returns (list: seq<ParsedEvent>)
    ensures list == Transactions(owner, all, remotes.GetOr([]))
  {
    var live := OfOwner(all, owner);
    var synth := FetchArchivedCreateEvents(owner, all, remotes);
    list := Sort(live + synth, NewerEvent);
  }

  // ------------------------------------------------------------------ counting

  lemma CreatesAppend(rows: seq<ParsedEvent>, e: ParsedEvent, id: string)
    ensures Creates(rows + [e], id) == Creates(rows, id) + (if e.kind == Create && e.vaultId == id then 1 else 0)
  {
    assert (rows + [e])[..|rows|] == rows;
  }

  lemma {:induction false} CreatesConcat(a: seq<ParsedEvent>, b: seq<ParsedEvent>, id: string)
    ensures Creates(a + b, id) == Creates(a, id) + Creates(b, id)
  {
    if b == [] {
      assert a + b == a;
    } else {
      assert a + b == a + b[..|b| - 1] + [b[|b| - 1]];
      CreatesConcat(a, b[..|b| - 1], id);
      CreatesAppend(a + b[..|b| - 1], b[|b| - 1], id);
    }
  }

  lemma {:induction false} CreatesInsert(x: ParsedEvent, rows: seq<ParsedEvent>,
                                         before: (ParsedEvent, ParsedEvent) -> bool, id: string)
    ensures Creates(Insert(x, rows, before), id) ==
            Creates(rows, id) + (if x.kind == Create && x.vaultId == id then 1 else 0)
  {
    if rows == [] || !before(x, rows[|rows| - 1]) {
      CreatesAppend(rows, x, id);
    } else {
      CreatesInsert(x, rows[..|rows| - 1], before, id);
      CreatesAppend(Insert(x, rows[..|rows| - 1], before), rows[|rows| - 1], id);
    }
  }

  lemma {:induction false} CreatesSort(rows: seq<ParsedEvent>, before: (ParsedEvent, ParsedEvent) -> bool, id: string)
    ensures Creates(Sort(rows, before), id) == Creates(rows, id)
  {
    if rows != [] {
      CreatesSort(rows[..|rows| - 1], before, id);
      CreatesInsert(rows[|rows| - 1], Sort(rows[..|rows| - 1], before), before, id);
    }
  }

  lemma {:induction false} CreatesPositive(rows: seq<ParsedEvent>, id: string)
    ensures id in CreatedIds(rows) <==> Creates(rows, id) > 0
  {
    if rows != [] {
      var front, e := rows[..|rows| - 1], rows[|rows| - 1];
      CreatesPositive(front, id);
      assert rows == front + [e];
    }
  }

  lemma NamesLast(remotes: seq<RemoteMeta>, id: string)
    requires remotes != [] && DistinctMetas(remotes)
    ensures var front, r := remotes[..|remotes| - 1], remotes[|remotes| - 1];
      && DistinctMetas(front)
      && (Names(remotes, id) <==> Names(front, id) || r.vaultId == id)
      && !(Names(front, id) && r.vaultId == id)
  {
  }

  lemma CreatesSyntheticLast(owner: Address, created: set<string>, remotes: seq<RemoteMeta>, id: string)
    requires remotes != []
    ensures var front, r := remotes[..|remotes| - 1], remotes[|remotes| - 1];
      Creates(Synthetic(owner, created, remotes), id) ==
      Creates(Synthetic(owner, created, front), id) + (if r.vaultId !in created && r.vaultId == id then 1 else 0)
  {
    var front, r := remotes[..|remotes| - 1], remotes[|remotes| - 1];
    if r.vaultId !in created {
      CreatesAppend(Synthetic(owner, created, front), Reconstructed(owner, r), id);
    } else {
      assert Synthetic(owner, created, remotes) == Synthetic(owner, created, front);
    }
  }

  lemma {:induction false} CreatesSynthetic(owner: Address, created: set<string>, remotes: seq<RemoteMeta>, id: string)
    requires DistinctMetas(remotes)
    ensures Creates(Synthetic(owner, created, remotes), id) == if id !in created && Names(remotes, id) then 1 else 0
  {
    if remotes != [] {
      NamesLast(remotes, id);
      CreatesSynthetic(owner, created, remotes[..|remotes| - 1], id);
      CreatesSyntheticLast(owner, created, remotes, id);
    }
  }

  lemma {:induction false} OwnCreates(all: seq<ParsedEvent>, owner: Address, id: string)
    ensures Creates(OfOwner(all, owner), id) <= Creates(all, id)
  {
    if all != [] {
      var front, e := all[..|all| - 1], all[|all| - 1];
      OwnCreates(front, owner, id);
      if e.owner == owner {
        CreatesAppend(OfOwner(front, owner), e, id);
      }
    }
  }

  // ------------------------------------------------------------------ completeness

  ghost predicate Known(all: seq<ParsedEvent>, owner: Address, metas: seq<RemoteMeta>, id: string) {
    Names(metas, id) || Creates(OfOwner(all, owner), id) > 0
  }

  /** The history is ordered newest first, and has this many "create" rows for each vault. */
  lemma HistoryCreates(owner: Address, all: seq<ParsedEvent>, metas: seq<RemoteMeta>, id: string)
    requires DistinctMetas(metas)
    ensures var list := Transactions(owner, all, metas);
      && Sorted(list, NewerEvent)
      && Creates(list, id) ==
         Creates(OfOwner(all, owner), id)
         + (if Creates(all, id) == 0 && Names(metas, id) then 1 else 0)
  {
    var live, synth := OfOwner(all, owner), Synthetic(owner, CreatedIds(all), metas);
    SortSorts(live + synth, NewerEvent);
    CreatesSort(live + synth, NewerEvent, id);
    CreatesConcat(live, synth, id);
    CreatesSynthetic(owner, CreatedIds(all), metas, id);
    CreatesPositive(all, id);
  }

  /**
    * Every vault the owner knows of, from the backend or from a live "create", has exactly one "create" row, and
    * no other vault has any: precisely when no backend record names a vault whose live "create" is someone
    * else's. The live stream has at most one "create" per vault, as the contract's ids guarantee.
    */
  lemma HistoryComplete(owner: Address, all: seq<ParsedEvent>, metas: seq<RemoteMeta>)
    requires DistinctMetas(metas) && forall id :: Creates(all, id) <= 1
    ensures var list := Transactions(owner, all, metas);
      && (forall id :: Creates(list, id) <= 1 && (Creates(list, id) == 1 ==> Known(all, owner, metas, id)))
      && ((forall id :: Known(all, owner, metas, id) ==> Creates(list, id) == 1) <==>
          (forall m :: m in metas ==> Creates(OfOwner(all, owner), m.vaultId) == Creates(all, m.vaultId)))
  {
    var list := Transactions(owner, all, metas);
    forall id
      ensures Creates(list, id) == Creates(OfOwner(all, owner), id)
              + (if Creates(all, id) == 0 && Names(metas, id) then 1 else 0)
      ensures Creates(OfOwner(all, owner), id) <= Creates(all, id) <= 1
    {
      HistoryCreates(owner, all, metas, id);
      OwnCreates(all, owner, id);
    }
    if forall id :: Known(all, owner, metas, id) ==> Creates(list, id) == 1 {
      forall m | m in metas
        ensures Creates(OfOwner(all, owner), m.vaultId) == Creates(all, m.vaultId)
      {
        assert Known(all, owner, metas, m.vaultId);
      }
    }
  }

  /** The other case: a record that names a vault whose live "create" is someone else's has no row at all. */
  lemma ForeignRecordHasNoRow(owner: Address, m: RemoteMeta, e: ParsedEvent)
    requires e.kind == Create && e.vaultId == m.vaultId && e.owner != owner
    ensures Known([e], owner, [m], m.vaultId) && Creates(Transactions(owner, [e], [m]), m.vaultId) == 0
  {
    assert m in [m];
    HistoryCreates(owner, [e], [m], m.vaultId);
    assert [e][..0] == [] && OfOwner([e], owner) == [];
  }

  // ------------------------------------------------------------------ every row, and what is made up

  /** A row that is reconstructed from record `m`. */
  predicate IsReconstructed(e: ParsedEvent, owner: Address, m: RemoteMeta) {
    && e.txId == "meta:" + m.vaultId && e.vaultId == m.vaultId && e.owner == owner
    && e.kind == Create && e.amount == 0
    && e.note == (if HasText(m.name) then m.name.value + " · reconstructed from backend metadata"
                  else "Reconstructed from backend metadata (on-chain event archived)")
    && e.timestamp == (if m.createdAt.Some? then m.createdAt.value
                       else if m.updatedAt.Some? then m.updatedAt.value else 0)
  }

  lemma {:induction false} SyntheticAre(owner: Address, created: set<string>, remotes: seq<RemoteMeta>)
    ensures forall e :: e in Synthetic(owner, created, remotes) ==>
      exists m :: m in remotes && m.vaultId !in created && e == Reconstructed(owner, m)
  {
    if remotes != [] {
      var front, m := remotes[..|remotes| - 1], remotes[|remotes| - 1];
      SyntheticAre(owner, created, front);
      assert m in remotes && forall n :: n in front ==> n in remotes;
    }
  }

  lemma ReconstructedIs(owner: Address, m: RemoteMeta)
    ensures IsReconstructed(Reconstructed(owner, m), owner, m)
  {
  }

  lemma {:induction false} OwnRows(all: seq<ParsedEvent>, owner: Address, e: ParsedEvent)
    ensures multiset(OfOwner(all, owner))[e] == if e.owner == owner then multiset(all)[e] else 0
  {
    if all != [] {
      var front, last := all[..|all| - 1], all[|all| - 1];
      assert all == front + [last];
      OwnRows(front, owner, e);
    }
  }

  /**
    * Every row of the owner that was read, of any kind, is in the history as often as it was read, and nobody else's
    * is; all else in it is reconstructed from a record without a live "create".
    */
  lemma HistoryKeepsRows(owner: Address, all: seq<ParsedEvent>, metas: seq<RemoteMeta>, e: ParsedEvent)
    ensures var list, made := Transactions(owner, all, metas), Synthetic(owner, CreatedIds(all), metas);
      && multiset(list)[e] == (if e.owner == owner then multiset(all)[e] else 0) + multiset(made)[e]
      && (e in made ==> exists m :: m in metas && m.vaultId !in CreatedIds(all) && IsReconstructed(e, owner, m))
  {
    OwnRows(all, owner, e);
    var made := Synthetic(owner, CreatedIds(all), metas);
    SyntheticAre(owner, CreatedIds(all), metas);
    if e in made {
      var m :| m in metas && m.vaultId !in CreatedIds(all) && e == Reconstructed(owner, m);
      ReconstructedIs(owner, m);
    }
  }
}
