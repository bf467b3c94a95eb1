/**
 * The in-memory rate limiter: a process-wide map from client identifier to a
 * window counter with an optional lock-out, swept of stale entries at most
 * every five minutes. The clock is the parameter `now` (milliseconds).
 */
module RateLimit {
  import opened Wrappers
  import opened JsString

  /** Minimum time between two sweeps of the map. */
  const CleanupInterval: int := 5 * 60 * 1000

  /** The state kept per client identifier. `blocked` / `blockUntil` are left over from
      an earlier lock-out until a fresh window replaces the entry. */
  datatype Entry = Entry(count: int, resetTime: int, blocked: bool, blockUntil: Option<int>)

  /** A policy; `blockDurationMs == 0` stands for an absent (or zero, hence falsy) duration. */
  datatype Config = Config(windowMs: int, maxRequests: int, blockDurationMs: int)

  /** What a check reports; `blocked == false` and `blockUntil == None` stand for absent fields. */
  datatype Result = Result(success: bool, limit: int, remaining: int, resetTime: int,
                           blocked: bool, blockUntil: Option<int>)

  /** The three named policies. */
  const AuthPolicy: Config := Config(15 * 60 * 1000, 5, 30 * 60 * 1000)
  const ApiPolicy: Config := Config(60 * 1000, 60, 5 * 60 * 1000)
  const ContactPolicy: Config := Config(60 * 60 * 1000, 3, 60 * 60 * 1000)

  /** JavaScript truthiness of an optional number (absent and 0 are falsy). */
  predicate Truthy(v: Option<int>) {
    v.Some? && v.value != 0
  }

  /** The entry is under an active lock-out. */
  predicate BlockedAt(e: Entry, now: int) {
    Truthy(e.blockUntil) && e.blockUntil.value > now
  }

  /** A sweep deletes the entry: its window and any lock-out are both over. */
  predicate Stale(e: Entry, now: int) {
    e.resetTime < now && (!Truthy(e.blockUntil) || e.blockUntil.value < now)
  }

  /** A sweep runs only once the interval has elapsed since the last one. */
  predicate SweepDue(lastCleanup: int, now: int) {
    now - lastCleanup >= CleanupInterval
  }

  /** The limiter's whole state: the map and the time of the last sweep. */
  datatype State = State(entries: map<string, Entry>, lastCleanup: int)

  /** The effect of the passive sweep at time `now`. */
  function Cleaned(s: State, now: int): State {
    if !SweepDue(s.lastCleanup, now) then s
    else State(map k | k in s.entries && !Stale(s.entries[k], now) :: s.entries[k], now)
  }

  /** The per-identifier state machine: the entry stored afterwards and the result. */
  function Decide(entry: Option<Entry>, cfg: Config, now: int): (Entry, Result) {
    if entry.Some? && BlockedAt(entry.value, now) then
      (entry.value, Result(false, cfg.maxRequests, 0, entry.value.resetTime, true, entry.value.blockUntil))
    else if entry.None? || entry.value.resetTime <= now then
      var e := Entry(1, now + cfg.windowMs, false, None);
      (e, Result(true, cfg.maxRequests, cfg.maxRequests - 1, e.resetTime, false, None))
    else if entry.value.count >= cfg.maxRequests then
      var e := if cfg.blockDurationMs != 0
               then entry.value.(blocked := true, blockUntil := Some(now + cfg.blockDurationMs))
               else entry.value;
      (e, Result(false, cfg.maxRequests, 0, e.resetTime, e.blocked, e.blockUntil))
    else
      var e := entry.value.(count := entry.value.count + 1);
      (e, Result(true, cfg.maxRequests, cfg.maxRequests - e.count, e.resetTime, false, None))
  }

  function Lookup(m: map<string, Entry>, id: string): Option<Entry> {
    if id in m then Some(m[id]) else None
  }

  /** One call of the limiter: sweep, then run the state machine for `id`. */
  function Step(s: State, id: string, cfg: Config, now: int): (State, Result) {
    var c := Cleaned(s, now);
    var (e, r) := Decide(Lookup(c.entries, id), cfg, now);
    (State(c.entries[id := e], c.lastCleanup), r)
  }

  /** The rate-limit key: `user:<id>` for a non-empty user id, else `ip:<address>`. */
  function ClientIdentifier(ip: string, userId: Option<string>): (key: string)
    ensures StartsWith(key, "user:") <==> (userId.Some? && userId.value != "")
    ensures StartsWith(key, "user:") ==> key[5..] == userId.value
    ensures !StartsWith(key, "user:") ==> StartsWith(key, "ip:") && key[3..] == ip
  {
    if userId.Some? && userId.value != "" then "user:" + userId.value
    else
      var key := "ip:" + ip;
      assert key[0] != "user:"[0];
      key
  }

  /** Two requests share a counter only if they have the same user id, or both have
      none and come from the same address. */
  lemma ClientIdentifierInjective(ip1: string, u1: Option<string>, ip2: string, u2: Option<string>)
    requires ClientIdentifier(ip1, u1) == ClientIdentifier(ip2, u2)
    ensures (u1.Some? && u1.value != "") == (u2.Some? && u2.value != "")
    ensures u1.Some? && u1.value != "" ==> u1 == u2
    ensures !(u1.Some? && u1.value != "") ==> ip1 == ip2
  {
  }

  // ----- the cleanup -----

  /** A sweep runs only when due, then deletes exactly the stale entries and leaves the
      others as they were. */
  lemma CleanedDeletesExactlyStale(s: State, now: int)
    ensures !SweepDue(s.lastCleanup, now) ==> Cleaned(s, now) == s
    ensures SweepDue(s.lastCleanup, now) ==>
      && Cleaned(s, now).lastCleanup == now
      && forall k :: k in Cleaned(s, now).entries <==> k in s.entries && !Stale(s.entries[k], now)
    ensures forall k :: k in Cleaned(s, now).entries ==> k in s.entries && Cleaned(s, now).entries[k] == s.entries[k]
  {
  }

  // ----- the four branches of a check -----

  /** Under an active lock-out the call fails, reports the lock-out and leaves the entry alone. */
  lemma StepWhileBlocked(s: State, id: string, cfg: Config, now: int)
    requires id in s.entries && BlockedAt(s.entries[id], now)
    ensures var (s', r) := Step(s, id, cfg, now);
      && !r.success && r.remaining == 0 && r.blocked && r.limit == cfg.maxRequests
      && r.blockUntil == s.entries[id].blockUntil && r.resetTime == s.entries[id].resetTime
      && id in s'.entries && s'.entries[id] == s.entries[id]
  {
    assert id in Cleaned(s, now).entries;
  }

  /** Without an entry, or once the window is over (and no lock-out is active), the call
      opens a fresh window with a count of one and succeeds. */
  lemma StepFreshWindow(s: State, id: string, cfg: Config, now: int)
    requires id !in s.entries || (!BlockedAt(s.entries[id], now) && s.entries[id].resetTime <= now)
    ensures var (s', r) := Step(s, id, cfg, now);
      && r.success && r.limit == cfg.maxRequests && r.remaining == cfg.maxRequests - 1
      && r.resetTime == now + cfg.windowMs && !r.blocked && r.blockUntil == None
      && id in s'.entries && s'.entries[id] == Entry(1, now + cfg.windowMs, false, None)
  {
    var c := Cleaned(s, now);
    assert id in c.entries ==> c.entries[id] == s.entries[id];
  }

  /** At the limit inside an open window the call fails without counting, and starts a
      lock-out when the policy has a block duration. */
  lemma StepAtLimit(s: State, id: string, cfg: Config, now: int)
    requires id in s.entries
    requires !BlockedAt(s.entries[id], now) && s.entries[id].resetTime > now
    requires s.entries[id].count >= cfg.maxRequests
    ensures var (s', r) := Step(s, id, cfg, now);
      var e := s.entries[id];
      && !r.success && r.limit == cfg.maxRequests && r.remaining == 0 && r.resetTime == e.resetTime
      && id in s'.entries && s'.entries[id].count == e.count && s'.entries[id].resetTime == e.resetTime
      && (cfg.blockDurationMs != 0 ==>
            s'.entries[id].blocked && s'.entries[id].blockUntil == Some(now + cfg.blockDurationMs)
            && r.blocked && r.blockUntil == Some(now + cfg.blockDurationMs))
      && (cfg.blockDurationMs == 0 ==>
            s'.entries[id] == e && r.blocked == e.blocked && r.blockUntil == e.blockUntil)
  {
    assert id in Cleaned(s, now).entries;
  }

  /** Below the limit inside an open window the count goes up by exactly one and the
      call succeeds with the remaining allowance. */
  lemma StepIncrement(s: State, id: string, cfg: Config, now: int)
    requires id in s.entries
    requires !BlockedAt(s.entries[id], now) && s.entries[id].resetTime > now
    requires s.entries[id].count < cfg.maxRequests
    ensures var (s', r) := Step(s, id, cfg, now);
      var e := s.entries[id];
      && r.success && r.limit == cfg.maxRequests && !r.blocked && r.blockUntil == None
      && id in s'.entries && s'.entries[id] == e.(count := e.count + 1)
      && r.remaining == cfg.maxRequests - s'.entries[id].count && r.remaining >= 0
      && r.resetTime == e.resetTime
  {
    assert id in Cleaned(s, now).entries;
  }

  // ----- invariants of a check -----

  /** Every stored count lies between 1 and `bound`. */
  predicate CountsWithin(m: map<string, Entry>, bound: int) {
    forall k :: k in m ==> 1 <= m[k].count <= bound
  }

  /** With every policy's limit between 1 and `bound`, no count ever exceeds `bound`. */
  lemma StepKeepsCountsWithin(s: State, id: string, cfg: Config, now: int, bound: int)
    requires CountsWithin(s.entries, bound)
    requires 1 <= cfg.maxRequests <= bound
    ensures CountsWithin(Step(s, id, cfg, now).0.entries, bound)
  {
    var c := Cleaned(s, now);
    assert CountsWithin(c.entries, bound);
  }

  /** A check touches only its own identifier's entry; the others change only by the sweep,
      and not at all when no sweep is due. */
  lemma StepFrame(s: State, id: string, cfg: Config, now: int)
    ensures var s' := Step(s, id, cfg, now).0;
      && (forall k :: k != id ==> (k in s'.entries <==> k in Cleaned(s, now).entries))
      && (forall k :: k != id && k in s'.entries ==> k in s.entries && s'.entries[k] == s.entries[k])
      && (!SweepDue(s.lastCleanup, now) ==> forall k :: k != id ==> (k in s'.entries <==> k in s.entries))
  {
  }

  // ----- at most maxRequests successes per identifier and window -----

  /** One call to the limiter, as issued by some client. */
  datatype Call = Call(id: string, cfg: Config, now: int)

  /** Replays `calls` from `s` and counts the successful calls for `id` under the policy
      `cfg` whose window ends at `window`. Calls for `id` under other policies are replayed
      too: they share the counter. */
  function Successes(s: State, calls: seq<Call>, id: string, cfg: Config, window: int): nat
    decreases |calls|
  {
    if calls == [] then 0
    else
      var (s', r) := Step(s, calls[0].id, calls[0].cfg, calls[0].now);
      (if calls[0].id == id && calls[0].cfg == cfg && r.success && r.resetTime == window then 1 else 0)
        + Successes(s', calls[1..], id, cfg, window)
  }

  /** How many more successes `id` can still collect under `cfg` in the window ending at
      `window` when no call comes before `t0`: what the stored count leaves of the limit
      when that window is the open one; nothing when the window ends by `t0`, since every
      window opened later ends later; else the whole limit. */
  function Allowance(s: State, id: string, cfg: Config, t0: int, window: int): int {
    if id in s.entries && s.entries[id].resetTime == window then
      (if s.entries[id].count >= cfg.maxRequests then 0 else cfg.maxRequests - s.entries[id].count)
    else if window <= t0 then 0
    else cfg.maxRequests
  }

  /** The clock never runs backwards and starts at `t0` or later. */
  predicate Chronological(calls: seq<Call>, t0: int) {
    && (forall i :: 0 <= i < |calls| ==> t0 <= calls[i].now)
    && (forall i, j :: 0 <= i < j < |calls| ==> calls[i].now <= calls[j].now)
  }

  /** Every call for `id`, under whichever policy, has a window of positive length. */
  predicate PositiveWindows(calls: seq<Call>, id: string) {
    forall i :: 0 <= i < |calls| && calls[i].id == id ==> calls[i].cfg.windowMs > 0
  }

  /** One call, by any client and under any policy, never raises what `id` may still
      collect under `cfg` in a window. */
  lemma StepWithinAllowance(s: State, c: Call, id: string, cfg: Config, t0: int, window: int)
    requires cfg.maxRequests >= 1
    requires c.id == id ==> c.cfg.windowMs > 0
    requires t0 <= c.now
    ensures var (s', r) := Step(s, c.id, c.cfg, c.now);
      (if c.id == id && c.cfg == cfg && r.success && r.resetTime == window then 1 else 0)
        + Allowance(s', id, cfg, c.now, window) <= Allowance(s, id, cfg, t0, window)
  {
    var now := c.now;
    var cl := Cleaned(s, now);
    assert id in cl.entries ==> id in s.entries && cl.entries[id] == s.entries[id];
    assert id in s.entries && id !in cl.entries ==> s.entries[id].resetTime < now;
    var (s', r) := Step(s, c.id, c.cfg, now);
    if c.id != id {
      assert id in s'.entries <==> id in cl.entries;
      assert id in s'.entries ==> s'.entries[id] == cl.entries[id];
    } else {
      assert (s'.entries[id], r) == Decide(Lookup(cl.entries, id), c.cfg, now);
    }
  }

  /** Replaying any chronological sequence of calls, `id` collects at most its allowance
      of successes under `cfg` in a window. */
  lemma {:induction false} SuccessesWithinAllowance(s: State, calls: seq<Call>, id: string, cfg: Config,
                                                    t0: int, window: int)
    requires cfg.maxRequests >= 1
    requires PositiveWindows(calls, id)
    requires Chronological(calls, t0)
    ensures Successes(s, calls, id, cfg, window) <= Allowance(s, id, cfg, t0, window)
    decreases |calls|
  {
    if calls != [] {
      var c := calls[0];
      var (s', r) := Step(s, c.id, c.cfg, c.now);
      StepWithinAllowance(s, c, id, cfg, t0, window);
      assert Chronological(calls[1..], c.now);
      assert PositiveWindows(calls[1..], id);
      SuccessesWithinAllowance(s', calls[1..], id, cfg, c.now, window);
    }
  }

  /** At most `maxRequests` calls from one identifier succeed under a policy per window,
      whatever other identifiers, and the same identifier under other policies, do in
      between, as long as the clock does not run backwards and no window is empty. */
  lemma AtMostMaxRequestsPerWindow(s: State, calls: seq<Call>, id: string, cfg: Config, window: int)
    requires cfg.maxRequests >= 1
    requires PositiveWindows(calls, id)
    requires calls != [] && Chronological(calls, calls[0].now)
    requires id in s.entries ==> 0 <= s.entries[id].count
    ensures Successes(s, calls, id, cfg, window) <= cfg.maxRequests
  {
    SuccessesWithinAllowance(s, calls, id, cfg, calls[0].now, window);
  }

  /** Policies share an identifier's counter, and the window is the one of the policy that
      opened it: after an API call opens a one-minute window, a login within that minute
      succeeds inside the same window, which ends long before a login window of fifteen
      minutes would. */
  lemma ApiCallShortensLoginWindow(s: State, id: string, t: int, u: int)
    requires id !in s.entries
    requires t < u < t + ApiPolicy.windowMs
    ensures var (s1, r1) := Step(s, id, ApiPolicy, t);
      var (s2, r2) := Step(s1, id, AuthPolicy, u);
      && r1.success && r2.success
      && r2.resetTime == t + ApiPolicy.windowMs
      && r2.resetTime < u + AuthPolicy.windowMs
      && s2.entries[id].count == 2
  {
    var (s1, r1) := Step(s, id, ApiPolicy, t);
    StepFreshWindow(s, id, ApiPolicy, t);
    StepIncrement(s1, id, AuthPolicy, u);
  }

  // ----- the stateful limiter -----

  /** The module-level map and the time of the last sweep. */
  class RateLimiter {
    var entries: map<string, Entry>
    var lastCleanup: int

    /** The limiter's state as a value. */
    function Snapshot(): State
      reads this
    {
      State(entries, lastCleanup)
    }

    /** A new limiter starts empty with its sweep clock set to the start time. */
    constructor (now: int)
      ensures entries == map[] && lastCleanup == now
    {
      entries := map[];
      lastCleanup := now;
    }

    /** The passive sweep: when due, deletes every stale entry and records the time. */
    method Cleanup(now: int)
      modifies this
      ensures !SweepDue(old(lastCleanup), now) ==> entries == old(entries) && lastCleanup == old(lastCleanup)
      ensures SweepDue(old(lastCleanup), now) ==> lastCleanup == now
      ensures forall k :: k in entries <==>
        k in old(entries) && !(SweepDue(old(lastCleanup), now) && Stale(old(entries)[k], now))
      ensures forall k :: k in entries ==> entries[k] == old(entries)[k]
      ensures Snapshot() == Cleaned(old(Snapshot()), now)
    {
      if now - lastCleanup < CleanupInterval {
        return;
      }
      var pending := entries.Keys;
      while pending != {}
        invariant pending <= old(entries).Keys
        invariant forall k :: k in entries <==> k in old(entries) && (k in pending || !Stale(old(entries)[k], now))
        invariant forall k :: k in entries ==> entries[k] == old(entries)[k]
        decreases pending
      {
        var k :| k in pending;
        if Stale(entries[k], now) {
          entries := entries - {k};
        }
        pending := pending - {k};
      }
      lastCleanup := now;
      assert entries == Cleaned(old(Snapshot()), now).entries;
    }

    /** One rate-limit check for `id` under policy `cfg` at time `now`. */
    method Check(id: string, cfg: Config, now: int) returns (r: Result)
      modifies this
      ensures (Snapshot(), r) == Step(old(Snapshot()), id, cfg, now)
    {
      Cleanup(now);
      if id in entries && BlockedAt(entries[id], now) {
        var e := entries[id];
        assert entries[id := e] == entries;
        return Result(false, cfg.maxRequests, 0, e.resetTime, true, e.blockUntil);
      }
      if id !in entries || entries[id].resetTime <= now {
        var newEntry := Entry(1, now + cfg.windowMs, false, None);
        entries := entries[id := newEntry];
        return Result(true, cfg.maxRequests, cfg.maxRequests - 1, newEntry.resetTime, false, None);
      }
      var e := entries[id];
      if e.count >= cfg.maxRequests {
        if cfg.blockDurationMs != 0 {
          e := e.(blocked := true, blockUntil := Some(now + cfg.blockDurationMs));
        }
        entries := entries[id := e];
        return Result(false, cfg.maxRequests, 0, e.resetTime, e.blocked, e.blockUntil);
      }
      e := e.(count := e.count + 1);
      entries := entries[id := e];
      return Result(true, cfg.maxRequests, cfg.maxRequests - e.count, e.resetTime, false, None);
    }
  }
}
