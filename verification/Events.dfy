/** What the contract publishes, as the RPC hands it over, and what the client makes of it. */
module Events {
  import opened Base
  import opened Decimal
  import opened Calendar
  import VaultModel

  datatype Kind = Create | Deposit | Extend | Withdraw

  /**
    * An event after the SDK has decoded it: topics as text, the value as a list of integers (`None` when it is
    * not a list), the transaction hash, and the close time of its ledger in seconds.
    */
  datatype RawEvent = RawEvent(topics: seq<string>, value: Option<seq<nat>>, txHash: string, closedAt: nat)

  datatype ParsedEvent = ParsedEvent(
    txId: string,
    vaultId: string,
    owner: Address,
    kind: Kind,
    amount: nat,
    note: string,
    timestamp: int)

  /** A row, a row to ignore, or an exception that ends the whole read. */
  datatype Parse = Parsed(event: ParsedEvent) | Ignored | Threw

  function DecodeKind(sym: string): Option<Kind> {
    if sym == "create" then Some(Create)
    else if sym == "deposit" then Some(Deposit)
    else if sym == "extend" then Some(Extend)
    else if sym == "withdraw" then Some(Withdraw)
    else None
  }

  const UNLOCK_PREFIX := "unlock "
  const NEW_UNLOCK_PREFIX := "new unlock "

  function ParseEvent(ev: RawEvent): Parse {
    if |ev.topics| < 2 then Ignored
    else
      var kind := DecodeKind(ev.topics[0]);
      if kind.None? || ev.value.None? || ev.value.value == [] then Ignored
      else
        var value := ev.value.value;
        var row := ParsedEvent(ev.txHash, ToText(value[0]), ev.topics[1], kind.value, 0, "", ev.closedAt);
        match kind.value
        case Create =>
          if |value| < 3 || value[2] > MAX_DATE_SECONDS then Threw
          else Parsed(row.(amount := value[1], note := UNLOCK_PREFIX + IsoDay(value[2])))
        case Extend =>
          if |value| < 2 || value[1] > MAX_DATE_SECONDS then Threw
          else Parsed(row.(note := NEW_UNLOCK_PREFIX + IsoDay(value[1])))
        case _ =>
          if |value| < 2 then Threw
          else Parsed(row.(amount := value[1]))
  }

  /** The rows so far, extended by one more event; `None` once any event has thrown. */
  function Append(rows: Option<seq<ParsedEvent>>, p: Parse): Option<seq<ParsedEvent>> {
    if rows.None? || p.Threw? then None
    else if p.Ignored? then rows
    else Some(rows.value + [p.event])
  }

  /** The rows of a list of events, in order; `None` when any of them throws. */
  function ParseAll(evs: seq<RawEvent>): (r: Option<seq<ParsedEvent>>)
    ensures r.Some? ==> |r.value| <= |evs|
  {
    if evs == [] then Some([])
    else Append(ParseAll(evs[..|evs| - 1]), ParseEvent(evs[|evs| - 1]))
  }

  function Join(a: Option<seq<ParsedEvent>>, b: Option<seq<ParsedEvent>>): Option<seq<ParsedEvent>> {
    if a.None? || b.None? then None else Some(a.value + b.value)
  }

  lemma JoinAppend(a: Option<seq<ParsedEvent>>, b: Option<seq<ParsedEvent>>, p: Parse)
    ensures Append(Join(a, b), p) == Join(a, Append(b, p))
  {
    if a.Some? && b.Some? && p.Parsed? {
      assert a.value + b.value + [p.event] == a.value + (b.value + [p.event]);
    }
  }

  /** Reading page by page is the same as reading everything at once. */
  lemma {:induction false} ParseAllConcat(a: seq<RawEvent>, b: seq<RawEvent>)
    ensures ParseAll(a + b) == Join(ParseAll(a), ParseAll(b))
  {
    if b == [] {
      assert a + b == a;
      if ParseAll(a).Some? {
        assert ParseAll(a).value + [] == ParseAll(a).value;
      }
    } else {
      var front, last := b[..|b| - 1], b[|b| - 1];
      assert (a + b)[..|a + b| - 1] == a + front;
      ParseAllConcat(a, front);
      JoinAppend(ParseAll(a), ParseAll(front), ParseEvent(last));
    }
  }

  // ------------------------------------------------------------------ the contract's side

  function TopicOf(e: VaultModel.Event): string {
    match e
    case Created(_, _, _, _) => "create"
    case Deposited(_, _, _) => "deposit"
    case Extended(_, _, _) => "extend"
    case Withdrew(_, _, _) => "withdraw"
  }

  /** `raw` is log entry `entry` as published; only its transaction hash is the network's choice. */
  predicate Publishes(raw: RawEvent, entry: VaultModel.LogEntry) {
    && raw.topics == [TopicOf(entry.event), entry.event.who]
    && raw.closedAt == entry.at
    && match entry.event
       case Created(_, id, amount, unlock) => amount >= 0 && raw.value == Some([id, amount, unlock])
       case Extended(_, id, unlock) => raw.value == Some([id, unlock])
       case Deposited(_, id, amount) => amount >= 0 && raw.value == Some([id, amount])
       case Withdrew(_, id, amount) => amount >= 0 && raw.value == Some([id, amount])
  }

  ghost predicate PublishesAll(raws: seq<RawEvent>, entries: seq<VaultModel.LogEntry>) {
    |raws| == |entries| && forall i :: 0 <= i < |raws| ==> Publishes(raws[i], entries[i])
  }

  /** The entry's unlock time, if it carries one, is a date JavaScript can hold. */
  predicate Printable(entry: VaultModel.LogEntry) {
    match entry.event
    case Created(_, _, _, unlock) => unlock <= 8_640_000_000_000
    case Extended(_, _, unlock) => unlock <= 8_640_000_000_000
    case _ => true
  }

  /** `row` is what the client should see of a log entry. */
  predicate Shows(row: ParsedEvent, entry: VaultModel.LogEntry) {
    && row.vaultId == ToText(entry.event.id) && row.owner == entry.event.who && row.timestamp == entry.at
    && match entry.event
       case Created(_, _, amount, unlock) =>
         row.kind == Create && row.amount == amount
         && DateNoteToSec(row.note) == (if Showable(unlock) then Midnight(unlock) else 0)
       case Extended(_, _, unlock) =>
         row.kind == Extend && row.amount == 0
         && DateNoteToSec(row.note) == (if Showable(unlock) then Midnight(unlock) else 0)
       case Deposited(_, _, amount) => row.kind == Deposit && row.amount == amount
       case Withdrew(_, _, amount) => row.kind == Withdraw && row.amount == amount
  }

  ghost predicate ShowsAll(rows: seq<ParsedEvent>, entries: seq<VaultModel.LogEntry>) {
    |rows| == |entries| && forall i :: 0 <= i < |rows| ==> Shows(rows[i], entries[i])
  }

  /** What an unlock time printed behind either prefix reads back as. */
  lemma NotesReadBack(unlock: nat)
    requires unlock <= MAX_DATE_SECONDS
    ensures var read := if Showable(unlock) then Midnight(unlock) else 0;
      && DateNoteToSec(UNLOCK_PREFIX + IsoDay(unlock)) == read
      && DateNoteToSec(NEW_UNLOCK_PREFIX + IsoDay(unlock)) == read
  {
    assert forall k :: 0 <= k < |NEW_UNLOCK_PREFIX| ==> !IsDigit(NEW_UNLOCK_PREFIX[k]) && NEW_UNLOCK_PREFIX[k] != '-';
    assert forall k :: 0 <= k < |UNLOCK_PREFIX| ==> !IsDigit(UNLOCK_PREFIX[k]) && UNLOCK_PREFIX[k] != '-';
    NoteRoundTrip(UNLOCK_PREFIX, unlock);
    NoteRoundTrip(NEW_UNLOCK_PREFIX, unlock);
  }

  /** The row of a published entry, field by field. */
  function RowFor(txHash: string, entry: VaultModel.LogEntry): ParsedEvent {
    var id := ToText(entry.event.id);
    match entry.event
    case Created(who, _, amount, unlock) =>
      ParsedEvent(txHash, id, who, Create, Size(amount), "unlock " + IsoDay(unlock), entry.at)
    case Extended(who, _, unlock) =>
      ParsedEvent(txHash, id, who, Extend, 0, "new unlock " + IsoDay(unlock), entry.at)
    case Deposited(who, _, amount) => ParsedEvent(txHash, id, who, Deposit, Size(amount), "", entry.at)
    case Withdrew(who, _, amount) => ParsedEvent(txHash, id, who, Withdraw, Size(amount), "", entry.at)
  }

  function Size(amount: int): nat {
    if amount < 0 then 0 else amount
  }

  lemma KindOfTopic(e: VaultModel.Event)
    ensures DecodeKind(TopicOf(e)) ==
      Some(match e
           case Created(_, _, _, _) => Create
           case Deposited(_, _, _) => Deposit
           case Extended(_, _, _) => Extend
           case Withdrew(_, _, _) => Withdraw)
  {
  }

  lemma PublishedRow(raw: RawEvent, entry: VaultModel.LogEntry)
    requires Publishes(raw, entry)
    ensures ParseEvent(raw) == if Printable(entry) then Parsed(RowFor(raw.txHash, entry)) else Threw
  {
    KindOfTopic(entry.event);
    assert raw.topics[0] == TopicOf(entry.event) && raw.topics[1] == entry.event.who;
    match entry.event {
      case Created(_, id, amount, unlock) => assert raw.value.value == [id, amount, unlock];
      case Extended(_, id, unlock) => assert raw.value.value == [id, unlock];
      case Deposited(_, id, amount) => assert raw.value.value == [id, amount];
      case Withdrew(_, id, amount) => assert raw.value.value == [id, amount];
    }
  }

  lemma RowForShows(txHash: string, entry: VaultModel.LogEntry)
    requires Printable(entry)
    requires entry.event.Extended? || entry.event.amount >= 0
    ensures Shows(RowFor(txHash, entry), entry)
  {
    match entry.event {
      case Created(_, _, _, unlock) => NotesReadBack(unlock);
      case Extended(_, _, unlock) => NotesReadBack(unlock);
      case Deposited(_, _, _) =>
      case Withdrew(_, _, _) =>
    }
  }

  lemma ParsePublished(raw: RawEvent, entry: VaultModel.LogEntry)
    requires Publishes(raw, entry)
    ensures if Printable(entry) then ParseEvent(raw).Parsed? && Shows(ParseEvent(raw).event, entry)
            else ParseEvent(raw).Threw?
  {
    PublishedRow(raw, entry);
    if Printable(entry) {
      RowForShows(raw.txHash, entry);
    }
  }

  ghost predicate AllPrintable(entries: seq<VaultModel.LogEntry>) {
    forall i :: 0 <= i < |entries| ==> Printable(entries[i])
  }

  lemma LastPrintable(entries: seq<VaultModel.LogEntry>)
    requires entries != []
    ensures var n := |entries| - 1;
      AllPrintable(entries) <==> AllPrintable(entries[..n]) && Printable(entries[n])
  {
  }

  lemma ShowOneMore(rows: seq<ParsedEvent>, row: ParsedEvent, entries: seq<VaultModel.LogEntry>)
    requires entries != [] && ShowsAll(rows, entries[..|entries| - 1]) && Shows(row, entries[|entries| - 1])
    ensures ShowsAll(rows + [row], entries)
  {
  }

  /**
    * Reading a stretch of the published log gives one row per entry, in order. It fails as a whole exactly when
    * some entry's unlock time is beyond the last date JavaScript can hold, which the contract does not rule out.
    */
  lemma {:induction false} ParseAllPublished(raws: seq<RawEvent>, entries: seq<VaultModel.LogEntry>)
    requires PublishesAll(raws, entries)
    ensures ParseAll(raws).Some? <==> AllPrintable(entries)
    ensures ParseAll(raws).Some? ==> ShowsAll(ParseAll(raws).value, entries)
  {
    if raws != [] {
      var n := |raws| - 1;
      assert PublishesAll(raws[..n], entries[..n]);
      ParseAllPublished(raws[..n], entries[..n]);
      ParsePublished(raws[n], entries[n]);
      LastPrintable(entries);
      if AllPrintable(entries) {
        ShowOneMore(ParseAll(raws[..n]).value, ParseEvent(raws[n]).event, entries);
      }
    }
  }
}
