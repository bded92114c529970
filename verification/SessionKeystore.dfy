/** The session cache of wallet seeds: what it holds, when it is emptied and who is told. */
module SessionKeystore {
  import opened Base

  const IDLE_LOCK_MS: int := 5 * 60 * 1_000

  datatype AppStatus = Active | Background | Inactive | OtherStatus

  /**
    * Device storage (one secret slot per wallet, and the set of migrated wallets) and the session: the cache, the
    * time of the last activity, when the app last left the foreground, and how often listeners were notified.
    */
  datatype Session = Session(
    secrets: map<string, string>,
    migrated: set<string>,
    cache: map<string, string>,
    lastActivity: int,
    backgroundedAt: Option<int>,
    notified: nat)

  /**
    * Calls with what the operating system answers: whether a read is released, whether the authenticated write
    * succeeds, and whether the plain one does.
    */
  datatype Op =
    | Get(id: string, released: bool, authOk: bool)
    | Set(id: string, seed: string, authOk: bool, plainOk: bool)
    | Remove(id: string)
    | Drop(id: string)
    | Lock
    | App(status: AppStatus)

  predicate Unlocked(s: Session) {
    s.cache != map[]
  }

  function Stored(s: Session, id: string, released: bool): string {
    if released && id in s.secrets then s.secrets[id] else ""
  }

  /** A seed enters the cache at time `now`; listeners hear of it when it is the first. */
  function Warm(s: Session, id: string, seed: string, now: int): Session {
    s.(cache := s.cache[id := seed], lastActivity := now,
       notified := s.notified + if Unlocked(s) then 0 else 1)
  }

  function ApplyGet(s: Session, id: string, released: bool, authOk: bool, now: int): (Session, Option<string>) {
    if id in s.cache && s.cache[id] != "" then (s.(lastActivity := now), Some(s.cache[id]))
    else
      var seed := Stored(s, id, released);
      if seed == "" then (s, None)
      else
        var kept := if id !in s.migrated && authOk then s.(migrated := s.migrated + {id}) else s;
        (Warm(kept, id, seed, now), Some(seed))
  }

  function ApplySet(s: Session, id: string, seed: string, authOk: bool, plainOk: bool, now: int): (Session, bool) {
    if authOk then
      (Warm(s.(secrets := s.secrets[id := seed], migrated := s.migrated + {id}), id, seed, now), true)
    else if plainOk then (Warm(s.(secrets := s.secrets[id := seed]), id, seed, now), true)
    else (s, false)
  }

  function ApplyLock(s: Session): Session {
    s.(cache := map[], notified := s.notified + if Unlocked(s) then 1 else 0)
  }

  /** The app-state handler; both of its checks may lock. */
  function ApplyApp(s: Session, status: AppStatus, now: int): Session {
    if status == Background || status == Inactive then s.(backgroundedAt := Some(now))
    else
      var back := status == Active && s.backgroundedAt.Some?;
      var t := if back then s.(backgroundedAt := None) else s;
      var u := if back && now - s.backgroundedAt.value >= IDLE_LOCK_MS then ApplyLock(t) else t;
      if now - s.lastActivity >= IDLE_LOCK_MS then ApplyLock(u) else u
  }

  function Apply(s: Session, op: Op, now: int): Session {
    match op
    case Get(id, released, authOk) => ApplyGet(s, id, released, authOk, now).0
    case Set(id, seed, authOk, plainOk) => ApplySet(s, id, seed, authOk, plainOk, now).0
    case Remove(id) => s.(cache := s.cache - {id}, secrets := s.secrets - {id}, migrated := s.migrated - {id})
    case Drop(id) => s.(cache := s.cache - {id})
    case Lock => ApplyLock(s)
    case App(status) => ApplyApp(s, status, now)
  }

  // ------------------------------------------------------------------ the module as it is written

  class Keystore {
    var secrets: map<string, string>
    var migrated: set<string>
    var cache: map<string, string>
    var lastActivity: int
    var backgroundedAt: Option<int>
    var notified: nat

    ghost function Abs(): Session
      reads this
    {
      Session(secrets, migrated, cache, lastActivity, backgroundedAt, notified)
    }

    constructor (secrets: map<string, string>, migrated: set<string>, now: int)
      ensures Abs() == Session(secrets, migrated, map[], now, None, 0)
    {
      this.secrets, this.migrated := secrets, migrated;
      cache, lastActivity, backgroundedAt, notified := map[], now, None, 0;
    }

    method GetWalletSeed(id: string, released: bool, authOk: bool, now: int) returns (r: Option<string>)
      modifies this
      ensures Abs() == ApplyGet(old(Abs()), id, released, authOk, now).0
      ensures r == ApplyGet(old(Abs()), id, released, authOk, now).1
    {
      if id in cache && cache[id] != "" {
        lastActivity := now;
        return Some(cache[id]);
      }
      var wasLocked := cache == map[];
      if id in migrated {
        var seed := if released && id in secrets then secrets[id] else "";
        if seed == "" {
          return None;
        }
        cache := cache[id := seed];
        lastActivity := now;
        if wasLocked {
          notified := notified + 1;
        }
        return Some(seed);
      }
      var legacy := if released && id in secrets then secrets[id] else "";
      if legacy == "" {
        return None;
      }
      if authOk {
        assert secrets[id := legacy] == secrets;
        secrets := secrets[id := legacy];
        migrated := migrated + {id};
      }
      cache := cache[id := legacy];
      lastActivity := now;
      if wasLocked {
        notified := notified + 1;
      }
      r := Some(legacy);
    }

    method SetWalletSeed(id: string, seed: string, authOk: bool, plainOk: bool, now: int) returns (ok: bool)
      modifies this
      ensures Abs() == ApplySet(old(Abs()), id, seed, authOk, plainOk, now).0
      ensures ok == ApplySet(old(Abs()), id, seed, authOk, plainOk, now).1
    {
      var wasLocked := cache == map[];
      if authOk {
        secrets := secrets[id := seed];
        migrated := migrated + {id};
        cache := cache[id := seed];
        lastActivity := now;
        if wasLocked {
          notified := notified + 1;
        }
        return true;
      }
      if plainOk {
        secrets := secrets[id := seed];
        cache := cache[id := seed];
        lastActivity := now;
        if wasLocked {
          notified := notified + 1;
        }
      }
      ok := plainOk;
    }

    /** Overwrite the slot with zeros of the same length, then drop it. */
    method WipeCacheEntry(id: string)
      modifies this`cache
      ensures cache == old(cache) - {id}
    {
      if id in cache && |cache[id]| > 0 {
        cache := cache[id := seq(|cache[id]|, _ => '0')];
      }
      cache := cache - {id};
    }

    method RemoveWalletSeed(id: string)
      modifies this
      ensures Abs() == Apply(old(Abs()), Remove(id), 0)
    {
      WipeCacheEntry(id);
      secrets := secrets - {id};
      migrated := migrated - {id};
    }

    method DropWallet(id: string)
      modifies this
      ensures Abs() == Apply(old(Abs()), Drop(id), 0)
    {
      WipeCacheEntry(id);
    }

    method LockNow()
      modifies this`cache, this`notified
      ensures Abs() == ApplyLock(old(Abs()))
    {
      var wasUnlocked := cache != map[];
      var keys := cache.Keys;
      while keys != {}
        invariant cache.Keys == keys && notified == old(notified)
        decreases keys
      {
        var key :| key in keys;
        WipeCacheEntry(key);
        keys := keys - {key};
      }
      cache := map[];
      if wasUnlocked {
        notified := notified + 1;
      }
    }

    method OnAppState(next: AppStatus, now: int)
      modifies this
      ensures Abs() == ApplyApp(old(Abs()), next, now)
    {
      if next == Background || next == Inactive {
        backgroundedAt := Some(now);
        return;
      }
      if next == Active && backgroundedAt.Some? {
        var idleFor := now - backgroundedAt.value;
        backgroundedAt := None;
        if idleFor >= IDLE_LOCK_MS {
          LockNow();
        }
      }
      if now - lastActivity >= IDLE_LOCK_MS {
        LockNow();
      }
    }
  }

  // ------------------------------------------------------------------ runs

  datatype Timed = Timed(at: int, op: Op)

  function Run(s: Session, ops: seq<Timed>): Session {
    if ops == [] then s
    else Apply(Run(s, ops[..|ops| - 1]), ops[|ops| - 1].op, ops[|ops| - 1].at)
  }

  /** A freshly started app: any storage, nothing cached, nobody notified. */
  predicate Started(s: Session) {
    s.cache == map[] && s.backgroundedAt.None? && s.notified == 0
  }

  /** The clock does not go back. */
  ghost predicate InOrder(s: Session, ops: seq<Timed>) {
    && (forall i :: 0 <= i < |ops| ==> s.lastActivity <= ops[i].at)
    && (forall i, j :: 0 <= i < j < |ops| ==> ops[i].at <= ops[j].at)
  }

  ghost predicate CacheMatchesStore(s: Session) {
    forall id :: id in s.cache ==> id in s.secrets && s.secrets[id] == s.cache[id]
  }

  /** Over every run, each cached seed is the one stored for that wallet. */
  lemma {:induction false} CachedIsStored(s: Session, ops: seq<Timed>)
    requires Started(s)
    ensures CacheMatchesStore(Run(s, ops))
  {
    if ops != [] {
      CachedIsStored(s, ops[..|ops| - 1]);
    }
  }

  /** The call used a wallet's seed successfully. */
  predicate Touches(s: Session, t: Timed) {
    match t.op
    case Get(id, released, authOk) => ApplyGet(s, id, released, authOk, t.at).1.Some?
    case Set(id, seed, authOk, plainOk) => ApplySet(s, id, seed, authOk, plainOk, t.at).1
    case _ => false
  }

  /** When a seed was last used, or else when the app started. */
  function LastTouch(s: Session, ops: seq<Timed>): int {
    if ops == [] then s.lastActivity
    else
      var front, t := ops[..|ops| - 1], ops[|ops| - 1];
      if Touches(Run(s, front), t) then t.at else LastTouch(s, front)
  }

  /** When the app last left the foreground, if it is away, one call later. */
  function LeftAfter(left: Option<int>, t: Timed): Option<int> {
    if t.op.App? && (t.op.status == Background || t.op.status == Inactive) then Some(t.at)
    else if t.op.App? && t.op.status == Active then None
    else left
  }

  function LastLeft(ops: seq<Timed>): Option<int> {
    if ops == [] then None else LeftAfter(LastLeft(ops[..|ops| - 1]), ops[|ops| - 1])
  }

  lemma StepTracksTouch(s: Session, t: Timed)
    ensures Apply(s, t.op, t.at).lastActivity == if Touches(s, t) then t.at else s.lastActivity
  {
  }

  lemma StepTracksLeft(s: Session, t: Timed)
    ensures Apply(s, t.op, t.at).backgroundedAt == LeftAfter(s.backgroundedAt, t)
  {
  }

  lemma {:induction false} TimesAreTracked(s: Session, ops: seq<Timed>)
    requires Started(s)
    ensures Run(s, ops).lastActivity == LastTouch(s, ops)
    ensures Run(s, ops).backgroundedAt == LastLeft(ops)
  {
    if ops != [] {
      var front, t := ops[..|ops| - 1], ops[|ops| - 1];
      TimesAreTracked(s, front);
      StepTracksTouch(Run(s, front), t);
      StepTracksLeft(Run(s, front), t);
    }
  }

  /**
    * When the app becomes active, the cache survives exactly when a seed was used less than five minutes ago and
    * the app last left the foreground less than five minutes ago.
    */
  lemma ResumeLocksIff(s: Session, ops: seq<Timed>, now: int)
    requires Started(s)
    ensures var before, after := Run(s, ops), Run(s, ops + [Timed(now, App(Active))]);
      && (Unlocked(after) <==>
            Unlocked(before) && now - LastTouch(s, ops) < 300_000
            && (LastLeft(ops).Some? ==> now - LastLeft(ops).value < 300_000))
      && (Unlocked(after) ==> after.cache == before.cache)
  {
    TimesAreTracked(s, ops);
    assert (ops + [Timed(now, App(Active))])[..|ops|] == ops;
  }

  /**
    * A background stay counted from when the app first left can outlast five minutes without locking: a second
    * "inactive" or "background" report restarts the count, and a seed used meanwhile restarts the idle time.
    */
  lemma StayIsCountedFromTheLastReport(s: Session, id: string, left: int)
    requires id in s.cache && s.cache[id] != ""
    ensures var away := Apply(s, App(Background), left);
      var used := Apply(away, Get(id, true, true), left + 200_000);
      var again := Apply(used, App(Inactive), left + 200_000);
      var back := Apply(again, App(Active), left + 400_000);
      Unlocked(back) && back.cache == s.cache
  {
    var away := Apply(s, App(Background), left);
    assert Apply(away, Get(id, true, true), left + 200_000) == away.(lastActivity := left + 200_000);
  }

  /** No seed is used from action `k` on. */
  ghost predicate QuietSince(s: Session, ops: seq<Timed>, k: nat) {
    k <= |ops| && forall i :: k <= i < |ops| ==> !Touches(Run(s, ops[..i]), ops[i])
  }

  lemma {:induction false} QuietKeepsLastTouch(s: Session, ops: seq<Timed>, k: nat)
    requires QuietSince(s, ops, k)
    ensures LastTouch(s, ops) == LastTouch(s, ops[..k])
  {
    if k < |ops| {
      var front := ops[..|ops| - 1];
      assert forall i :: 0 <= i <= |front| ==> front[..i] == ops[..i];
      QuietKeepsLastTouch(s, front, k);
    } else {
      assert ops[..k] == ops;
    }
  }

  lemma {:induction false} TouchesArePast(s: Session, ops: seq<Timed>, now: int)
    requires InOrder(s, ops) && s.lastActivity <= now && forall i :: 0 <= i < |ops| ==> ops[i].at <= now
    ensures LastTouch(s, ops) <= now
  {
    if ops != [] {
      TouchesArePast(s, ops[..|ops| - 1], now);
    }
  }

  /** But any stay of five minutes in which no seed is used locks, however often the app's state is reported. */
  lemma QuietStayLocks(s: Session, ops: seq<Timed>, k: nat, now: int)
    requires Started(s) && InOrder(s, ops) && k < |ops|
    requires QuietSince(s, ops, k) && now - ops[k].at >= 300_000
    ensures !Unlocked(Run(s, ops + [Timed(now, App(Active))]))
  {
    QuietKeepsLastTouch(s, ops, k);
    assert InOrder(s, ops[..k]);
    TouchesArePast(s, ops[..k], ops[k].at);
    ResumeLocksIff(s, ops, now);
  }

  // ------------------------------------------------------------------ notifications

  /** The call empties a non-empty cache without telling anyone. */
  predicate SilentLock(s: Session, op: Op) {
    (op.Drop? || op.Remove?) && Unlocked(s) && s.cache - {op.id} == map[]
  }

  /**
    * Each call notifies at most once, and notifies exactly when it locks or unlocks, except that dropping or
    * removing the last cached wallet locks in silence.
    */
  lemma NotifiesOnFlip(s: Session, op: Op, now: int)
    ensures var s' := Apply(s, op, now);
      s'.notified == s.notified + if (Unlocked(s) <==> Unlocked(s')) || SilentLock(s, op) then 0 else 1
  {
    var s' := Apply(s, op, now);
    match op {
      case Get(id, released, authOk) =>
        assert id in s'.cache || s'.cache == s.cache;
      case Set(id, seed, authOk, plainOk) =>
        assert id in s'.cache || s'.cache == s.cache;
      case _ =>
    }
  }

  /** How many calls of a run locked in silence. */
  function Silences(s: Session, ops: seq<Timed>): nat {
    if ops == [] then 0
    else
      var front := ops[..|ops| - 1];
      Silences(s, front) + if SilentLock(Run(s, front), ops[|ops| - 1].op) then 1 else 0
  }

  predicate Odd(n: nat) {
    n > 0 && !Odd(n - 1)
  }

  /** The notifications sent, with `silences` more, tell whether the session is unlocked. */
  predicate Told(s: Session, silences: nat) {
    Odd(s.notified + silences) <==> Unlocked(s)
  }

  lemma ToldNext(s: Session, op: Op, now: int, silences: nat)
    requires Told(s, silences)
    ensures Told(Apply(s, op, now), silences + if SilentLock(s, op) then 1 else 0)
  {
    var s' := Apply(s, op, now);
    NotifiesOnFlip(s, op, now);
  }

  /**
    * The number of notifications tells whether the cache is unlocked, off by one for each silent lock: it is odd
    * exactly when the cache is unlocked.
    */
  lemma {:induction false} ParityTellsLockState(s: Session, ops: seq<Timed>)
    requires Started(s)
    ensures Told(Run(s, ops), Silences(s, ops))
  {
    if ops != [] {
      var front, t := ops[..|ops| - 1], ops[|ops| - 1];
      ParityTellsLockState(s, front);
      ToldNext(Run(s, front), t.op, t.at, Silences(s, front));
    }
  }

  /** Over runs of reads, writes, locks and app events alone the notifications are all it takes. */
  lemma {:induction false} ParityTellsAllWithoutRemovals(s: Session, ops: seq<Timed>)
    requires Started(s) && forall i :: 0 <= i < |ops| ==> !ops[i].op.Drop? && !ops[i].op.Remove?
    ensures Silences(s, ops) == 0 && Told(Run(s, ops), 0)
  {
    ParityTellsLockState(s, ops);
    if ops != [] {
      ParityTellsAllWithoutRemovals(s, ops[..|ops| - 1]);
    }
  }

  // ------------------------------------------------------------------ what a read gives

  /** A seed that is given back is the one stored for that wallet, and it is not empty. */
  lemma ReadGivesStored(s: Session, ops: seq<Timed>, id: string, released: bool, authOk: bool, now: int)
    requires Started(s)
    ensures var e := Run(s, ops);
      var seed := ApplyGet(e, id, released, authOk, now).1;
      && (seed.Some? <==>
            id in e.secrets && e.secrets[id] != "" && (released || (id in e.cache && e.cache[id] != "")))
      && (seed.Some? ==> seed.value == e.secrets[id])
  {
    CachedIsStored(s, ops);
  }

  /** What a write that succeeds stores is what is read next. */
  lemma WrittenIsRead(s: Session, id: string, seed: string, authOk: bool, plainOk: bool, now: int,
                      released: bool, again: bool, later: int)
    requires seed != "" && (authOk || plainOk)
    ensures ApplyGet(Apply(s, Set(id, seed, authOk, plainOk), now), id, released, again, later).1 == Some(seed)
  {
  }

  /** The call is not a write for wallet `id` that succeeds. */
  predicate NotWritten(t: Timed, id: string) {
    t.op.Set? && t.op.id == id ==> !t.op.authOk && !t.op.plainOk
  }

  ghost predicate Absent(s: Session, id: string) {
    id !in s.secrets && id !in s.cache && id !in s.migrated
  }

  lemma AbsentStays(s: Session, t: Timed, id: string)
    requires Absent(s, id) && NotWritten(t, id)
    ensures Absent(Apply(s, t.op, t.at), id)
  {
  }

  /** After a removal nothing of the wallet is left, and until it is written again no read finds a seed. */
  lemma {:induction false} RemovedStaysGone(s: Session, ops: seq<Timed>, k: nat, id: string)
    requires k < |ops| && ops[k].op == Remove(id) && forall i :: k < i < |ops| ==> NotWritten(ops[i], id)
    ensures Absent(Run(s, ops), id)
    ensures forall released, authOk, now :: ApplyGet(Run(s, ops), id, released, authOk, now).1 == None
  {
    var front, t := ops[..|ops| - 1], ops[|ops| - 1];
    if k < |front| {
      RemovedStaysGone(s, front, k, id);
      AbsentStays(Run(s, front), t, id);
    }
  }

  /** Dropping a wallet empties its slot of the cache, and nothing else changes. */
  lemma DropEmptiesSlot(s: Session, id: string, now: int)
    ensures var s' := Apply(s, Drop(id), now);
      && id !in s'.cache && (forall other :: other != id ==> (other in s'.cache <==> other in s.cache))
      && (forall other :: other in s'.cache ==> s'.cache[other] == s.cache[other])
      && s' == s.(cache := s'.cache)
  {
  }

  /**
    * A wallet counts as migrated from its first authenticated write on, be it a new seed's or that of an unmigrated
    * seed that is read, until it is removed.
    */
  lemma StepMigrates(s: Session, op: Op, now: int, id: string)
    ensures id in Apply(s, op, now).migrated <==>
            || (id in s.migrated && op != Remove(id))
            || (op.Set? && op.id == id && op.authOk)
            || (op.Get? && op.id == id && op.authOk && !(id in s.cache && s.cache[id] != "")
                && op.released && id in s.secrets && s.secrets[id] != "")
  {
  }
}
