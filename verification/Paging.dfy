/** Fetching the recent event log page by page, with a short-lived memory cache and a day-long disk cache. */
module Paging {
  import opened Base
  import opened Events

  const EVENT_LEDGERS_WINDOW: int := 17_280
  const EVENT_PAGE_LIMIT: nat := 200
  const MAX_EVENTS: nat := 1_000
  const MAX_PAGES: nat := 20
  const EVENT_CACHE_MS: int := 8_000
  const EVENT_DISK_TTL_MS: int := 24 * 60 * 60 * 1_000

  /** The first request names a ledger, the later ones a cursor. */
  datatype Request = FromLedger(ledger: int) | FromCursor(cursor: string)

  /** One page; an absent or empty cursor is `None`. */
  datatype Page = Page(events: seq<RawEvent>, cursor: Option<string>)

  /** What the RPC answers to request number `n`, after failover; `None` when all endpoints fail. */
  type Server = (nat, Request) -> Option<Page>

  datatype Fetched = Rows(rows: seq<ParsedEvent>) | Unreachable | Crashed

  // ------------------------------------------------------------------ what a read comes to, request by request

  /**
    * A read under way: the next request, the rows so far and how many events they were parsed from. Or it has
    * been told there is nothing more, had no answer, or met an event that throws.
    */
  datatype Progress =
    | Going(next: Request, rows: seq<ParsedEvent>, read: nat)
    | Finished(rows: seq<ParsedEvent>, read: nat)
    | NoAnswer
    | Bad

  /** The page says how to go on: with a cursor other than the one just used. */
  predicate GoesOn(page: Page, asked: Request) {
    page.cursor.Some? && FromCursor(page.cursor.value) != asked
  }

  /** What a page with rows `more` makes of a read under way. */
  function Advance(p: Progress, page: Page, more: Option<seq<ParsedEvent>>): Progress
    requires p.Going?
  {
    if more.None? then Bad
    else if GoesOn(page, p.next) then
      Going(FromCursor(page.cursor.value), p.rows + more.value, p.read + |page.events|)
    else Finished(p.rows + more.value, p.read + |page.events|)
  }

  /** One request and its answer. */
  function Turn(server: Server, n: nat, p: Progress): Progress {
    if !p.Going? then p
    else if server(n, p.next).None? then NoAnswer
    else Advance(p, server(n, p.next).value, ParseAll(server(n, p.next).value.events))
  }

  /** Where a read from `ledger` on stands after `n` requests. */
  function After(server: Server, ledger: int, n: nat): Progress {
    if n == 0 then Going(FromLedger(ledger), [], 0)
    else Turn(server, n - 1, After(server, ledger, n - 1))
  }

  /** The read ends here: it cannot go on, has enough rows, or has asked for all its pages. */
  predicate Ends(p: Progress, n: nat) {
    !p.Going? || |p.rows| >= MAX_EVENTS || n >= MAX_PAGES
  }

  /** After how many requests the read ends, counted from `n` on. */
  function EndFrom(server: Server, ledger: int, n: nat): (r: nat)
    requires n <= MAX_PAGES
    ensures n <= r <= MAX_PAGES && Ends(After(server, ledger, r), r)
    ensures forall m: nat :: n <= m < r ==> !Ends(After(server, ledger, m), m)
    decreases MAX_PAGES - n
  {
    if Ends(After(server, ledger, n), n) then n else EndFrom(server, ledger, n + 1)
  }

  function Requests(server: Server, ledger: int): nat {
    EndFrom(server, ledger, 0)
  }

  function Final(server: Server, ledger: int): Progress {
    After(server, ledger, Requests(server, ledger))
  }

  function Outcome(p: Progress): Fetched {
    match p
    case Going(_, rows, _) => Rows(rows)
    case Finished(rows, _) => Rows(rows)
    case NoAnswer => Unreachable
    case Bad => Crashed
  }

  // ------------------------------------------------------------------ the paging loop as it is written

  /** Parse one page onto the rows so far; `ok` is false when an event throws. */
  method ParsePage(rows: seq<ParsedEvent>, page: seq<RawEvent>) returns (ok: bool, out: seq<ParsedEvent>)
    ensures ok <==> ParseAll(page).Some?
    ensures ok ==> out == rows + ParseAll(page).value
  {
    out := rows;
    for n := 0 to |page|
      invariant ParseAll(page[..n]).Some? && out == rows + ParseAll(page[..n]).value
    {
      assert page[..n + 1][..n] == page[..n];
      match ParseEvent(page[n]) {
        case Parsed(e) => out := out + [e];
        case Ignored =>
        case Threw =>
          ThrowsForGood(page, n + 1);
          return false, out;
      }
    }
    assert page[..|page|] == page;
    ok := true;
  }

  lemma {:induction false} ThrowsForGood(page: seq<RawEvent>, n: nat)
    requires n <= |page| && ParseAll(page[..n]).None?
    ensures ParseAll(page).None?
    decreases |page| - n
  {
    if n == |page| {
      assert page[..n] == page;
    } else {
      assert page[..n + 1][..n] == page[..n];
      ThrowsForGood(page, n + 1);
    }
  }

  lemma {:induction false} EndIsStable(server: Server, ledger: int, n: nat, m: nat)
    requires n <= m && !After(server, ledger, n).Going?
    ensures After(server, ledger, m) == After(server, ledger, n)
  {
    if n < m {
      EndIsStable(server, ledger, n, m - 1);
    }
  }

  /** One request of the loop, and what its page adds to the rows. */
  method AskPage(server: Server, n: nat, req: Request, events: seq<ParsedEvent>, read: nat) returns (p: Progress)
    ensures p == Turn(server, n, Going(req, events, read))
  {
    var res := server(n, req);
    if res.None? {
      return NoAnswer;
    }
    var ok, rows := ParsePage(events, res.value.events);
    if !ok {
      return Bad;
    }
    if res.value.cursor.None? || FromCursor(res.value.cursor.value) == req {
      return Finished(rows, read + |res.value.events|);
    }
    p := Going(FromCursor(res.value.cursor.value), rows, read + |res.value.events|);
  }

  /** The loop: ask from the start ledger and then from the last cursor, until the read ends. */
  method ReadPages(server: Server, startLedger: int) returns (r: Fetched)
    ensures r == Outcome(Final(server, startLedger))
  {
    var page: nat := 0;
    var p := Going(FromLedger(startLedger), [], 0);
    while page < MAX_PAGES && |p.rows| < MAX_EVENTS
      invariant page <= MAX_PAGES && p.Going? && p == After(server, startLedger, page)
      invariant Requests(server, startLedger) == EndFrom(server, startLedger, page)
      decreases MAX_PAGES - page
    {
      var q := AskPage(server, page, p.next, p.rows, p.read);
      page := page + 1;
      assert q == After(server, startLedger, page);
      if !q.Going? {
        return Outcome(q);
      }
      p := q;
    }
    r := Rows(p.rows);
  }

  // ------------------------------------------------------------------ a server of one log

  /** `page` is the slice of the log from `p` on, and its cursor resumes where the slice ends. */
  ghost predicate Slice(page: Page, log: seq<RawEvent>, p: nat, place: Request -> nat) {
    && p + |page.events| <= |log|
    && page.events == log[p..p + |page.events|]
    && |page.events| <= EVENT_PAGE_LIMIT
    && (page.cursor.Some? ==> place(FromCursor(page.cursor.value)) == p + |page.events|)
  }

  /**
    * The server hands out consecutive slices of one log; `place` is the position a request asks from. Pages may
    * be short, empty or missing.
    */
  ghost predicate Serves(server: Server, log: seq<RawEvent>, place: Request -> nat) {
    forall n: nat, q: Request {:trigger Slice(server(n, q).value, log, place(q), place)} ::
      server(n, q).Some? && place(q) <= |log| ==> Slice(server(n, q).value, log, place(q), place)
  }

  /** The slice from `p` on reaches the end of the log. */
  predicate ToTheEnd(page: Page, log: seq<RawEvent>, p: nat) {
    p + |page.events| == |log|
  }

  /** A page that does not say how to go on reaches the end of the log. */
  ghost predicate Diligent(server: Server, log: seq<RawEvent>, place: Request -> nat) {
    forall n: nat, q: Request {:trigger ToTheEnd(server(n, q).value, log, place(q))} ::
      server(n, q).Some? && place(q) <= |log| && !GoesOn(server(n, q).value, q) ==>
      ToTheEnd(server(n, q).value, log, place(q))
  }

  /** The page, if it can be parsed, gives at least `cap` rows. */
  predicate Yields(page: Page, cap: nat) {
    ParseAll(page.events).Some? ==> |ParseAll(page.events).value| >= cap
  }

  /** A page that says how to go on gives at least `cap` rows. */
  ghost predicate Fruitful(server: Server, log: seq<RawEvent>, place: Request -> nat, cap: nat) {
    forall n: nat, q: Request {:trigger place(q), Yields(server(n, q).value, cap)} ::
      server(n, q).Some? && place(q) <= |log| && GoesOn(server(n, q).value, q) ==> Yields(server(n, q).value, cap)
  }

  /** The window from `start` to `end` has been read into `rows`. */
  ghost predicate HasRead(rows: seq<ParsedEvent>, log: seq<RawEvent>, start: nat, end: nat) {
    start <= end <= |log| && ParseAll(log[start..end]) == Some(rows)
  }

  /** The window from `start` to `end` holds an event that throws. */
  ghost predicate CannotRead(log: seq<RawEvent>, start: nat, end: nat) {
    start <= end <= |log| && ParseAll(log[start..end]).None?
  }

  /** After every request, the rows are those of the contiguous window that starts where the read started. */
  ghost predicate Tracks(p: Progress, log: seq<RawEvent>, start: nat, place: Request -> nat) {
    match p
    case Going(next, rows, read) => HasRead(rows, log, start, start + read) && place(next) == start + read
    case Finished(rows, read) => HasRead(rows, log, start, start + read)
    case NoAnswer => true
    case Bad => exists end: nat :: CannotRead(log, start, end)
  }

  /** What follows the rows read so far, up to `end`: more rows, or an event that throws. */
  ghost predicate Continues(rows: seq<ParsedEvent>, more: Option<seq<ParsedEvent>>, log: seq<RawEvent>, start: nat,
                            end: nat) {
    if more.None? then CannotRead(log, start, end) else HasRead(rows + more.value, log, start, end)
  }

  /** The next slice of the log, parsed onto a window that ends where it starts. */
  lemma SliceExtends(events: seq<RawEvent>, log: seq<RawEvent>, start: nat, at: nat, end: nat, rows: seq<ParsedEvent>)
    requires HasRead(rows, log, start, at) && at <= end <= |log| && events == log[at..end]
    ensures Continues(rows, ParseAll(events), log, start, end)
  {
    assert log[start..end] == log[start..at] + log[at..end];
    ParseAllConcat(log[start..at], log[at..end]);
  }

  lemma AdvanceTracks(p: Progress, page: Page, more: Option<seq<ParsedEvent>>,
                      log: seq<RawEvent>, start: nat, place: Request -> nat)
    requires p.Going?
    requires var end := start + p.read + |page.events|;
      Continues(p.rows, more, log, start, end) && (page.cursor.Some? ==> place(FromCursor(page.cursor.value)) == end)
    ensures Tracks(Advance(p, page, more), log, start, place)
  {
  }

  lemma PageTracks(p: Progress, page: Page, log: seq<RawEvent>, start: nat, place: Request -> nat)
    requires p.Going? && Tracks(p, log, start, place) && Slice(page, log, place(p.next), place)
    ensures Tracks(Advance(p, page, ParseAll(page.events)), log, start, place)
  {
    var at := start + p.read;
    SliceExtends(page.events, log, start, at, at + |page.events|, p.rows);
    AdvanceTracks(p, page, ParseAll(page.events), log, start, place);
  }

  lemma TurnTracks(server: Server, n: nat, p: Progress, log: seq<RawEvent>, start: nat, place: Request -> nat)
    requires Serves(server, log, place) && Tracks(p, log, start, place)
    ensures Tracks(Turn(server, n, p), log, start, place)
  {
    if p.Going? && server(n, p.next).Some? {
      var page := server(n, p.next).value;
      assert Slice(page, log, place(p.next), place);
      PageTracks(p, page, log, start, place);
    }
  }

  lemma StartTracks(log: seq<RawEvent>, place: Request -> nat, ledger: int)
    requires place(FromLedger(ledger)) <= |log|
    ensures Tracks(Going(FromLedger(ledger), [], 0), log, place(FromLedger(ledger)), place)
  {
    var start := place(FromLedger(ledger));
    assert log[start..start] == [];
  }

  lemma {:induction false} AfterTracks(server: Server, log: seq<RawEvent>, place: Request -> nat, ledger: int, n: nat)
    requires Serves(server, log, place) && place(FromLedger(ledger)) <= |log|
    ensures Tracks(After(server, ledger, n), log, place(FromLedger(ledger)), place)
  {
    if n == 0 {
      StartTracks(log, place, ledger);
    } else {
      AfterTracks(server, log, place, ledger, n - 1);
      TurnTracks(server, n - 1, After(server, ledger, n - 1), log, place(FromLedger(ledger)), place);
    }
  }

  lemma TurnIsBounded(server: Server, n: nat, p: Progress, log: seq<RawEvent>, start: nat, place: Request -> nat)
    requires Serves(server, log, place) && Tracks(p, log, start, place) && p.Going?
    ensures var q := Turn(server, n, p);
      q.Going? || q.Finished? ==> |q.rows| <= |p.rows| + EVENT_PAGE_LIMIT
  {
    if server(n, p.next).Some? {
      assert Slice(server(n, p.next).value, log, place(p.next), place);
    }
  }

  /** What a read that ended like `p` has given: one window of the log, or a window that throws. */
  ghost predicate GaveWindow(p: Progress, log: seq<RawEvent>, start: nat) {
    match Outcome(p)
    case Rows(rows) => HasRead(rows, log, start, start + p.read) && |rows| <= 1_199
    case Crashed => exists end: nat :: CannotRead(log, start, end)
    case Unreachable => true
  }

  lemma TrackedGivesWindow(p: Progress, log: seq<RawEvent>, start: nat, place: Request -> nat)
    requires Tracks(p, log, start, place)
    requires p.Going? || p.Finished? ==> |p.rows| <= MAX_EVENTS + EVENT_PAGE_LIMIT - 1
    ensures GaveWindow(p, log, start)
  {
  }

  lemma FinalIsBounded(server: Server, log: seq<RawEvent>, place: Request -> nat, ledger: int)
    requires Serves(server, log, place) && place(FromLedger(ledger)) <= |log|
    ensures var p := Final(server, ledger);
      p.Going? || p.Finished? ==> |p.rows| <= MAX_EVENTS + EVENT_PAGE_LIMIT - 1
  {
    var n := Requests(server, ledger);
    if n > 0 {
      AfterTracks(server, log, place, ledger, n - 1);
      assert !Ends(After(server, ledger, n - 1), n - 1);
      TurnIsBounded(server, n - 1, After(server, ledger, n - 1), log, place(FromLedger(ledger)), place);
    }
  }

  /**
    * Against a server of consecutive slices the paging loop returns exactly one contiguous window of the log from
    * the start position on, in order, without gap or repetition, and never more than a page too many.
    */
  lemma ReadIsWindow(server: Server, log: seq<RawEvent>, place: Request -> nat, ledger: int)
    requires Serves(server, log, place) && place(FromLedger(ledger)) <= |log|
    ensures GaveWindow(Final(server, ledger), log, place(FromLedger(ledger)))
  {
    AfterTracks(server, log, place, ledger, Requests(server, ledger));
    FinalIsBounded(server, log, place, ledger);
    TrackedGivesWindow(Final(server, ledger), log, place(FromLedger(ledger)), place);
  }

  lemma {:induction false} FinishedAtEnd(server: Server, log: seq<RawEvent>, place: Request -> nat, ledger: int, n: nat)
    requires Serves(server, log, place) && Diligent(server, log, place) && place(FromLedger(ledger)) <= |log|
    requires After(server, ledger, n).Finished?
    ensures place(FromLedger(ledger)) + After(server, ledger, n).read == |log|
  {
    var p := After(server, ledger, n - 1);
    if p.Finished? {
      FinishedAtEnd(server, log, place, ledger, n - 1);
    } else {
      AfterTracks(server, log, place, ledger, n - 1);
      assert ToTheEnd(server(n - 1, p.next).value, log, place(p.next));
    }
  }

  /** The read stops short of the end of the log only when it has enough rows or has asked for all its pages. */
  lemma ReadReachesEnd(server: Server, log: seq<RawEvent>, place: Request -> nat, ledger: int)
    requires Serves(server, log, place) && Diligent(server, log, place) && place(FromLedger(ledger)) <= |log|
    requires Outcome(Final(server, ledger)).Rows?
    ensures var p := Final(server, ledger);
      || place(FromLedger(ledger)) + p.read == |log|
      || |p.rows| >= 1_000
      || (p.Going? && Requests(server, ledger) == 20)
  {
    if Final(server, ledger).Finished? {
      FinishedAtEnd(server, log, place, ledger, Requests(server, ledger));
    }
  }

  /** A read that ended for want of more pages has read everything from the start position on. */
  lemma ShortReadIsComplete(server: Server, log: seq<RawEvent>, place: Request -> nat, ledger: int)
    requires Serves(server, log, place) && Diligent(server, log, place) && place(FromLedger(ledger)) <= |log|
    requires Outcome(Final(server, ledger)).Rows?
    requires |Final(server, ledger).rows| < MAX_EVENTS && Requests(server, ledger) < MAX_PAGES
    ensures HasRead(Final(server, ledger).rows, log, place(FromLedger(ledger)), |log|)
  {
    ReadReachesEnd(server, log, place, ledger);
    ReadIsWindow(server, log, place, ledger);
  }

  lemma TurnIsFruitful(server: Server, n: nat, p: Progress, log: seq<RawEvent>, place: Request -> nat, cap: nat)
    requires Fruitful(server, log, place, cap) && p.Going? && place(p.next) <= |log|
    ensures Turn(server, n, p).Going? ==> |Turn(server, n, p).rows| >= |p.rows| + cap
  {
    if Turn(server, n, p).Going? {
      assert Yields(server(n, p.next).value, cap);
    }
  }

  lemma NextIsInside(server: Server, log: seq<RawEvent>, place: Request -> nat, ledger: int, n: nat)
    requires Serves(server, log, place) && place(FromLedger(ledger)) <= |log|
    requires After(server, ledger, n).Going?
    ensures place(After(server, ledger, n).next) <= |log|
  {
    AfterTracks(server, log, place, ledger, n);
  }

  function Times(cap: nat, n: nat): nat {
    if n == 0 then 0 else Times(cap, n - 1) + cap
  }

  /** A read that goes on after a request went on before it, and gained at least `cap` rows by it. */
  predicate Grew(before: Progress, after: Progress, cap: nat) {
    after.Going? ==> before.Going? && |after.rows| >= |before.rows| + cap
  }

  predicate GrewAt(run: nat -> Progress, cap: nat, m: nat) {
    Grew(run(m), run(m + 1), cap)
  }

  lemma {:induction false} GrowthAddsUp(run: nat -> Progress, cap: nat, n: nat)
    requires forall m: nat :: m < n ==> GrewAt(run, cap, m)
    requires run(n).Going?
    ensures |run(n).rows| >= Times(cap, n)
  {
    if n > 0 {
      assert GrewAt(run, cap, n - 1);
      GrowthAddsUp(run, cap, n - 1);
    }
  }

  /** Where a read stands after each number of requests. */
  function Reads(server: Server, ledger: int): nat -> Progress {
    (n: nat) => After(server, ledger, n)
  }

  lemma FruitfulGrows(server: Server, log: seq<RawEvent>, place: Request -> nat, ledger: int, cap: nat, n: nat)
    requires Serves(server, log, place) && Fruitful(server, log, place, cap) && place(FromLedger(ledger)) <= |log|
    ensures GrewAt(Reads(server, ledger), cap, n)
  {
    var p := After(server, ledger, n);
    if p.Going? {
      NextIsInside(server, log, place, ledger, n);
      TurnIsFruitful(server, n, p, log, place, cap);
    }
  }

  lemma RowsPerRequest(server: Server, log: seq<RawEvent>, place: Request -> nat, ledger: int, cap: nat, n: nat)
    requires Serves(server, log, place) && Fruitful(server, log, place, cap) && place(FromLedger(ledger)) <= |log|
    requires Reads(server, ledger)(n).Going?
    ensures |Reads(server, ledger)(n).rows| >= Times(cap, n)
  {
    forall m: nat | m < n
      ensures GrewAt(Reads(server, ledger), cap, m)
    {
      FruitfulGrows(server, log, place, ledger, cap, m);
    }
    GrowthAddsUp(Reads(server, ledger), cap, n);
  }

  /** When pages are full enough, the page limit never matters: the read has all there is, or its fill of rows. */
  lemma FruitfulReadReachesEnd(server: Server, log: seq<RawEvent>, place: Request -> nat, ledger: int, cap: nat)
    requires Serves(server, log, place) && Diligent(server, log, place) && Fruitful(server, log, place, cap)
    requires place(FromLedger(ledger)) <= |log| && Times(cap, MAX_PAGES) >= MAX_EVENTS
    requires Outcome(Final(server, ledger)).Rows?
    ensures var p := Final(server, ledger);
      place(FromLedger(ledger)) + p.read == |log| || |p.rows| >= MAX_EVENTS
  {
    ReadReachesEnd(server, log, place, ledger);
    if Final(server, ledger).Going? {
      RowsPerRequest(server, log, place, ledger, cap, Requests(server, ledger));
    }
  }

  /** The read is given up exactly when a request that was made had no answer. */
  lemma UnreachableIffUnanswered(server: Server, ledger: int)
    ensures Outcome(Final(server, ledger)).Unreachable? <==>
            exists n: nat :: n < Requests(server, ledger) && After(server, ledger, n).Going?
                             && server(n, After(server, ledger, n).next).None?
  {
    var last := Requests(server, ledger);
    if Final(server, ledger).NoAnswer? {
      assert !Ends(After(server, ledger, last - 1), last - 1);
    }
    forall n: nat | n < last && After(server, ledger, n).Going? && server(n, After(server, ledger, n).next).None?
      ensures Final(server, ledger).NoAnswer?
    {
      assert After(server, ledger, n + 1) == NoAnswer;
      EndIsStable(server, ledger, n + 1, last);
    }
  }

  // ------------------------------------------------------------------ the caches around it

  datatype Cached = Cached(at: int, rows: seq<ParsedEvent>)

  /** The first ledger asked for. */
  function FirstLedger(latest: int): int {
    if latest - EVENT_LEDGERS_WINDOW < 1 then 1 else latest - EVENT_LEDGERS_WINDOW
  }

  /** A read starts 17280 ledgers, about a day, before the latest one, or at the first ledger there is. */
  lemma StartsADayBack(latest: int)
    ensures FirstLedger(latest) == if latest >= 17_281 then latest - 17_280 else 1
  {
  }

  /**
    * Entry `i` of the log is in ledger `ledgers[i]`, and asking from a ledger is asking from the first entry that is
    * not before it.
    */
  ghost predicate ByLedger(place: Request -> nat, ledgers: seq<int>) {
    forall l: int ::
      && place(FromLedger(l)) <= |ledgers|
      && (forall i :: 0 <= i < place(FromLedger(l)) ==> ledgers[i] < l)
      && (forall i :: place(FromLedger(l)) <= i < |ledgers| ==> ledgers[i] >= l)
  }

  /** What the network gives; nothing when no endpoint knows the latest ledger. */
  function NetworkRead(latest: Option<int>, server: Server): Fetched {
    if latest.None? then Unreachable else Outcome(Final(server, FirstLedger(latest.value)))
  }

  ghost predicate SomeWindow(rows: seq<ParsedEvent>, log: seq<RawEvent>) {
    exists start: nat, end: nat :: HasRead(rows, log, start, end)
  }

  /** Rows read from the network are the window from the start ledger to where the read ended. */
  lemma NetworkReadIsWindow(latest: Option<int>, server: Server, log: seq<RawEvent>, place: Request -> nat)
    requires Serves(server, log, place)
    requires latest.Some? ==> place(FromLedger(FirstLedger(latest.value))) <= |log|
    ensures NetworkRead(latest, server).Rows? ==>
      var first := FirstLedger(latest.value);
      HasRead(NetworkRead(latest, server).rows, log, place(FromLedger(first)),
              place(FromLedger(first)) + Final(server, first).read)
    ensures NetworkRead(latest, server).Rows? ==> SomeWindow(NetworkRead(latest, server).rows, log)
  {
    if latest.Some? {
      ReadIsWindow(server, log, place, FirstLedger(latest.value));
    }
  }

  /** A complete read has every event of the last 17280 ledgers, and of older ones none. */
  lemma LastDayIsRead(latest: int, server: Server, log: seq<RawEvent>, ledgers: seq<int>, place: Request -> nat)
    requires Serves(server, log, place) && Diligent(server, log, place)
    requires |ledgers| == |log| && ByLedger(place, ledgers) && forall i :: 0 <= i < |ledgers| ==> ledgers[i] >= 1
    requires NetworkRead(Some(latest), server).Rows? && |NetworkRead(Some(latest), server).rows| < 1_000
    requires Requests(server, FirstLedger(latest)) < 20
    ensures var start := place(FromLedger(FirstLedger(latest)));
      && HasRead(NetworkRead(Some(latest), server).rows, log, start, |log|)
      && forall i :: 0 <= i < |log| ==> (start <= i <==> ledgers[i] >= latest - 17_280)
  {
    StartsADayBack(latest);
    ShortReadIsComplete(server, log, place, FirstLedger(latest));
  }

  method ReadNetwork(latest: Option<int>, server: Server) returns (r: Fetched)
    ensures r == NetworkRead(latest, server)
  {
    if latest.None? {
      return Unreachable;
    }
    r := ReadPages(server, FirstLedger(latest.value));
  }

  lemma WindowsSurviveGrowth(rows: seq<ParsedEvent>, log: seq<RawEvent>, longer: seq<RawEvent>)
    requires SomeWindow(rows, log) && log <= longer
    ensures SomeWindow(rows, longer)
  {
    var start: nat, end: nat :| HasRead(rows, log, start, end);
    assert HasRead(rows, longer, start, end) by {
      assert longer[start..end] == log[start..end];
    }
  }

  /** The event reader of one contract on one network. */
  class EventReader {
    var eventCache: Option<Cached>
    var disk: Option<Cached>
    ghost var log: seq<RawEvent>

    ghost predicate Valid()
      reads this
    {
      && (eventCache.Some? ==> SomeWindow(eventCache.value.rows, log))
      && (disk.Some? ==> SomeWindow(disk.value.rows, log))
    }

    /** The memory cache answers for eight seconds. */
    ghost predicate Fresh(now: int)
      reads this
    {
      eventCache.Some? && now - eventCache.value.at < 8_000
    }

    /** The disk cache may stand in for a day. */
    ghost predicate Usable(now: int)
      reads this
    {
      disk.Some? && now - disk.value.at <= 86_400_000
    }

    constructor ()
      ensures Valid() && eventCache == None && disk == None && log == []
    {
      eventCache, disk, log := None, None, [];
    }

    method ReadDisk(now: int) returns (d: Option<Cached>)
      ensures d == if Usable(now) then disk else None
    {
      if disk.Some? && now - disk.value.at > EVENT_DISK_TTL_MS {
        return None;
      }
      d := disk;
    }

    /** Drop both caches, as after waking a vault up. */
    method InvalidateAllCaches()
      requires Valid()
      modifies this`eventCache, this`disk
      ensures Valid() && eventCache == None && disk == None
    {
      eventCache := None;
      disk := None;
    }

    /** Events published since the last fetch do not disturb what the caches hold. */
    ghost method Grow(chain: seq<RawEvent>)
      requires Valid() && log <= chain
      modifies this`log
      ensures Valid() && log == chain
    {
      if eventCache.Some? {
        WindowsSurviveGrowth(eventCache.value.rows, log, chain);
      }
      if disk.Some? {
        WindowsSurviveGrowth(disk.value.rows, log, chain);
      }
      log := chain;
    }

    /**
      * `latest` is the newest ledger, or `None` when no endpoint answers. A fresh memory cache is returned as it
      * is. Otherwise the network is read: its rows are returned and cached twice, on disk if the write succeeds
      * (`persists`), an exception is passed on, and only when it gives nothing do unexpired rows from the disk
      * stand in. Whatever path is taken, returned rows are one contiguous window of the log as it stands now.
      */
    method FetchContractEvents(now: int, latest: Option<int>, server: Server, persists: bool,
                               ghost chain: seq<RawEvent>, ghost place: Request -> nat)
      returns (r: Fetched)
      requires Valid() && log <= chain
      requires Serves(server, chain, place)
      requires latest.Some? ==> place(FromLedger(FirstLedger(latest.value))) <= |chain|
      modifies this
      ensures Valid() && log == chain
      ensures r.Rows? ==> SomeWindow(r.rows, chain)
      ensures old(Fresh(now)) ==>
        r == Rows(old(eventCache).value.rows) && eventCache == old(eventCache) && disk == old(disk)
      ensures !old(Fresh(now)) ==>
        match NetworkRead(latest, server)
        case Rows(rows) =>
          r == Rows(rows) && eventCache == Some(Cached(now, rows))
          && disk == if persists then eventCache else old(disk)
        case Crashed => r == Crashed && eventCache == old(eventCache) && disk == old(disk)
        case Unreachable =>
          disk == old(disk)
          && if old(Usable(now)) then r == Rows(disk.value.rows) && eventCache == Some(Cached(now, disk.value.rows))
             else r == Unreachable && eventCache == old(eventCache)
      ensures !old(Fresh(now)) && NetworkRead(latest, server).Rows? ==>
        var first := FirstLedger(latest.value);
        HasRead(r.rows, chain, place(FromLedger(first)), place(FromLedger(first)) + Final(server, first).read)
    {
      Grow(chain);
      if eventCache.Some? && now - eventCache.value.at < EVENT_CACHE_MS {
        return Rows(eventCache.value.rows);
      }
      r := ReadNetwork(latest, server);
      NetworkReadIsWindow(latest, server, chain, place);
      if r.Rows? {
        eventCache := Some(Cached(now, r.rows));
        if persists {
          disk := Some(Cached(now, r.rows));
        }
      } else if r.Unreachable? {
        var saved := ReadDisk(now);
        if saved.Some? {
          eventCache := Some(Cached(now, saved.value.rows));
          return Rows(saved.value.rows);
        }
      }
    }
  }
}
