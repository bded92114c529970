/** Rebuilding vault rows from the event stream. */
module Replay {
  import opened Base
  import opened Decimal
  import opened Calendar
  import opened Events
  import opened Rows
  import opened StableSort

  datatype Accum = Accum(vaultId: string, balance: int, unlock: nat, created: int, withdrawn: bool)

  /** A JavaScript `Map`: entries with the order their keys were first inserted in. */
  datatype Accums = Accums(order: seq<string>, at: map<string, Accum>)

  const NO_ACCUMS := Accums([], map[])

  /** What one event does to the accumulators. Events of vaults whose creation was not seen are skipped. */
  function ReplayOne(m: Accums, ev: ParsedEvent): Accums {
    var id := ev.vaultId;
    if id !in m.at then
      if ev.kind != Create then m
      else Accums(m.order + [id],
                  m.at[id := Accum(id, ev.amount, DateNoteToSec(ev.note), ev.timestamp, false)])
    else
      var v := m.at[id];
      var v' :=
        match ev.kind
        case Create => v.(balance := v.balance + ev.amount)
        case Deposit => v.(balance := v.balance + ev.amount)
        case Extend => if DateNoteToSec(ev.note) > v.unlock then v.(unlock := DateNoteToSec(ev.note)) else v
        case Withdraw => v.(balance := 0, withdrawn := true);
      m.(at := m.at[id := v'])
  }

  /**
    * An event changes at most its own vault. Once a vault is known, whatever puts money in, a second "create" as well,
    * adds to its balance and to nothing else.
    */
  lemma MoneyOnlyAdds(m: Accums, ev: ParsedEvent)
    ensures forall id :: id in m.at && id != ev.vaultId ==>
      id in ReplayOne(m, ev).at && ReplayOne(m, ev).at[id] == m.at[id]
    ensures ev.vaultId in m.at && (ev.kind == Create || ev.kind == Deposit) ==>
      var a, b := m.at[ev.vaultId], ReplayOne(m, ev).at[ev.vaultId];
      && b.balance - a.balance == ev.amount
      && b.unlock == a.unlock && b.created == a.created && b.withdrawn == a.withdrawn
  {
  }

  function ReplayAll(evs: seq<ParsedEvent>): Accums {
    if evs == [] then NO_ACCUMS
    else ReplayOne(ReplayAll(evs[..|evs| - 1]), evs[|evs| - 1])
  }

  /** One accumulator as a row; a backend snapshot wins over what the events say, except over a withdrawal. */
  function RowOf(v: Accum, owner: Address, remote: Option<RemoteMeta>, localName: Option<string>, nowSec: int): Row {
    var unlock :=
      if remote.Some? && remote.value.unlock.GetOr(0) > 0 then remote.value.unlock.value else v.unlock;
    var balance :=
      if remote.Some? && remote.value.balance.Some? && !v.withdrawn then remote.value.balance.value else v.balance;
    var withdrawn := v.withdrawn || (remote.Some? && remote.value.chainStatus == Some(WithdrawnOnChain));
    var created :=
      if v.created > 0 then v.created else if remote.Some? then CreatedOf(remote.value) else 0;
    var name :=
      if remote.Some? && HasText(remote.value.name) then remote.value.name.value
      else if HasText(localName) then localName.value
      else "Vault #" + v.vaultId;
    Row(v.vaultId, owner, name, if withdrawn then 0 else balance, unlock, created,
        if withdrawn then Withdrawn else if nowSec >= unlock then Unlocked else Locked)
  }

  ghost predicate WellKeyed(m: Accums) {
    && (forall id :: id in m.at ==> m.at[id].vaultId == id)
    && (forall id :: id in m.order <==> id in m.at)
    && (forall i, j :: 0 <= i < j < |m.order| ==> m.order[i] != m.order[j])
  }

  lemma {:induction false} ReplayIsWellKeyed(evs: seq<ParsedEvent>)
    ensures WellKeyed(ReplayAll(evs))
  {
    if evs != [] {
      ReplayIsWellKeyed(evs[..|evs| - 1]);
    }
  }

  /** The rows in insertion order. */
  function RowsOf(m: Accums, owner: Address, metas: map<string, RemoteMeta>,
                  localName: string -> Option<string>, nowSec: int): (rows: seq<Row>)
    requires WellKeyed(m)
    ensures |rows| == |m.order|
  {
    seq(|m.order|, i requires 0 <= i < |m.order| =>
          RowOf(m.at[m.order[i]], owner, Lookup(metas, m.order[i]), localName(m.order[i]), nowSec))
  }

  predicate Earlier(a: ParsedEvent, b: ParsedEvent) {
    a.timestamp < b.timestamp
  }

  function OfOwner(events: seq<ParsedEvent>, owner: Address): seq<ParsedEvent> {
    Filter(events, (e: ParsedEvent) => e.owner == owner)
  }

  /** The owner's events in the order they are replayed. */
  function OwnEvents(events: seq<ParsedEvent>, owner: Address): seq<ParsedEvent> {
    Sort(OfOwner(events, owner), Earlier)
  }

  function Aggregate(events: seq<ParsedEvent>, owner: Address, metas: map<string, RemoteMeta>,
                     localName: string -> Option<string>, nowSec: int): seq<Row> {
    ReplayIsWellKeyed(OwnEvents(events, owner));
    Sort(RowsOf(ReplayAll(OwnEvents(events, owner)), owner, metas, localName, nowSec), NewerRow)
  }

  /** The replay loop as it is written: an accumulator is seeded empty and then updated by its event. */
  method ReplayLoop(ownerEvents: seq<ParsedEvent>) returns (byId: Accums)
    ensures byId == ReplayAll(ownerEvents)
  {
    byId := NO_ACCUMS;
    for n := 0 to |ownerEvents|
      invariant byId == ReplayAll(ownerEvents[..n])
    {
      assert ownerEvents[..n + 1][..n] == ownerEvents[..n];
      var ev := ownerEvents[n];
      var id := ev.vaultId;
      if id !in byId.at {
        if ev.kind != Create {
          continue;
        }
        byId := Accums(byId.order + [id],
                       byId.at[id := Accum(id, 0, DateNoteToSec(ev.note), ev.timestamp, false)]);
      }
      var v := byId.at[id];
      match ev.kind {
        case Create => v := v.(balance := v.balance + ev.amount);
        case Deposit => v := v.(balance := v.balance + ev.amount);
        case Extend =>
          var newUnlock := DateNoteToSec(ev.note);
          if newUnlock > v.unlock {
            v := v.(unlock := newUnlock);
          }
        case Withdraw =>
          v := v.(balance := 0);
          v := v.(withdrawn := true);
      }
      byId := byId.(at := byId.at[id := v]);
    }
    assert ownerEvents[..|ownerEvents|] == ownerEvents;
  }

  method RowsLoop(byId: Accums, owner: Address, metas: map<string, RemoteMeta>,
                  localName: string -> Option<string>, nowSec: int)
    returns (out: seq<Row>)
    requires WellKeyed(byId)
    ensures out == RowsOf(byId, owner, metas, localName, nowSec)
  {
    out := [];
    ghost var rows := RowsOf(byId, owner, metas, localName, nowSec);
    for n := 0 to |byId.order|
      invariant out == rows[..n]
    {
      var id := byId.order[n];
      out := out + [RowOf(byId.at[id], owner, Lookup(metas, id), localName(id), nowSec)];
    }
  }

  method AggregateVaultsFromEvents(events: seq<ParsedEvent>, owner: Address, metas: map<string, RemoteMeta>,
                                   localName: string -> Option<string>, nowSec: int)
    returns (out: seq<Row>)
    ensures out == Aggregate(events, owner, metas, localName, nowSec)
  {
    var ownerEvents := OwnEvents(events, owner);
    var byId := ReplayLoop(ownerEvents);
    ReplayIsWellKeyed(ownerEvents);
    out := RowsLoop(byId, owner, metas, localName, nowSec);
    out := Sort(out, NewerRow);
  }
}
