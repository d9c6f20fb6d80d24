/**
 Client failure backoff: a sharded table with one sliding-window automaton per client
 address, purged and evicted when a shard is full. Times are given by the caller; `hash`
 chooses the shard, and which entry a full shard evicts is arbitrary.
 */
module Backoff {
  import opened Wrappers
  import opened Bytes
  import opened Sets

  type Ip = nat

  datatype Policy = Policy(threshold: u32, window: nat, blockDuration: nat, maxEntries: nat)

  datatype Entry = Entry(failures: u32, windowStarted: nat, blockedUntil: Option<nat>)

  type Shard = map<Ip, Entry>

  // ---------- One client ----------

  function SaturatingInc(n: u32): u32 {
    if n == 0xffff_ffff then n else n + 1
  }

  function Elapsed(now: nat, since: nat): Option<nat> {
    if now >= since then Some(now - since) else None
  }

  predicate IsExpired(e: Entry, now: nat, window: nat) {
    match e.blockedUntil
    case Some(until) => now >= until && now - until > window
    case None => var d := Elapsed(now, e.windowStarted); d.Some? && d.value > window * 2
  }

  predicate InWindow(e: Entry, now: nat, window: nat) {
    var d := Elapsed(now, e.windowStarted);
    d.Some? && d.value <= window
  }

  /** One more failure; outside the window counting, and any block, start afresh. */
  function Fail(e: Option<Entry>, now: nat, p: Policy): Entry {
    var blank := Entry(0, now, None);
    var base := if e.Some? && InWindow(e.value, now, p.window) then e.value else blank;
    var failures := SaturatingInc(base.failures);
    Entry(failures, base.windowStarted,
          if failures >= p.threshold then Some(now + p.blockDuration) else base.blockedUntil)
  }

  predicate IsBlocked(e: Option<Entry>, now: nat) {
    e.Some? && e.value.blockedUntil.Some? && now < e.value.blockedUntil.value
  }

  /** Asking also ends a block that is over, and starts a new window at that moment. */
  function Ask(e: Option<Entry>, now: nat): Option<Entry> {
    if e.Some? && e.value.blockedUntil.Some? && now >= e.value.blockedUntil.value
    then Some(Entry(0, now, None)) else e
  }

  // ---------- One shard ----------

  function Get(m: Shard, ip: Ip): Option<Entry> {
    if ip in m then Some(m[ip]) else None
  }

  function Purge(m: Shard, now: nat, window: nat): Shard {
    map ip | ip in m && !IsExpired(m[ip], now, window) :: m[ip]
  }

  /** A full shard is purged; if it is still full, `victim` goes, even if it is the failing client. */
  function MakeRoom(m: Shard, cap: nat, now: nat, window: nat, victim: Ip): Shard {
    if |m| < cap then m
    else
      var kept := Purge(m, now, window);
      if |kept| < cap then kept else kept - {victim}
  }

  function FailIn(m: Shard, cap: nat, ip: Ip, now: nat, p: Policy, victim: Ip): Shard {
    var room := MakeRoom(m, cap, now, p.window, victim);
    room[ip := Fail(Get(room, ip), now, p)]
  }

  function AskIn(m: Shard, ip: Ip, now: nat): Shard {
    match Ask(Get(m, ip), now)
    case None => m
    case Some(e) => m[ip := e]
  }

  // ---------- The table ----------

  const MAX_SHARDS: nat := 32
  const TARGET_ENTRIES_PER_SHARD: nat := 256

  function ShardCount(maxEntries: nat): (n: nat)
    ensures 1 <= n <= MAX_SHARDS
  {
    var n := maxEntries / TARGET_ENTRIES_PER_SHARD;
    if n < 1 then 1 else if n > MAX_SHARDS then MAX_SHARDS else n
  }

  /** The least positive share of the entries that lets all shards together hold them. */
  function MaxEntriesPerShard(p: Policy): (cap: nat)
    ensures cap >= 1 && ShardCount(p.maxEntries) * cap >= p.maxEntries
    ensures cap > 1 ==> ShardCount(p.maxEntries) * (cap - 1) < p.maxEntries
  {
    var n := ShardCount(p.maxEntries);
    var cap := (p.maxEntries + n - 1) / n;
    DivCeil(p.maxEntries, n);
    if cap < 1 then 1 else cap
  }

  lemma DivCeil(m: nat, n: nat)
    requires n >= 1
    ensures var cap := (m + n - 1) / n; m <= n * cap < m + n
  {
    var q, r := (m + n - 1) / n, (m + n - 1) % n;
    assert m + n - 1 == n * q + r;
  }

  type Table = t: seq<Shard> | |t| >= 1 witness [map[]]

  datatype Event =
    | Failure(ip: Ip, now: nat, victim: Ip)
    | Success(ip: Ip)
    | Question(ip: Ip, now: nat)

  function ShardOf(t: Table, hash: Ip -> nat, ip: Ip): (s: nat)
    ensures s < |t|
  {
    hash(ip) % |t|
  }

  function Lookup(t: Table, hash: Ip -> nat, ip: Ip): Option<Entry> {
    Get(t[ShardOf(t, hash, ip)], ip)
  }

  function Step(t: Table, hash: Ip -> nat, ev: Event, p: Policy): (t': Table)
    ensures |t'| == |t|
  {
    var s := ShardOf(t, hash, ev.ip);
    match ev
    case Failure(ip, now, victim) => t[s := FailIn(t[s], MaxEntriesPerShard(p), ip, now, p, victim)]
    case Success(ip) => t[s := t[s] - {ip}]
    case Question(ip, now) => t[s := AskIn(t[s], ip, now)]
  }

  /** A victim, when one is needed, is an entry of the purged shard. */
  ghost predicate Allowed(t: Table, hash: Ip -> nat, ev: Event, p: Policy) {
    ev.Failure? ==>
      var kept := Purge(t[ShardOf(t, hash, ev.ip)], ev.now, p.window);
      |kept| >= MaxEntriesPerShard(p) ==> ev.victim in kept
  }

  /** Purge a full shard and, if that was not enough, drop whichever entry comes first. */
  method MakeRoomIn(m: Shard, cap: nat, now: nat, window: nat) returns (room: Shard, ghost victim: Ip)
    requires cap >= 1
    ensures room == MakeRoom(m, cap, now, window, victim)
    ensures |Purge(m, now, window)| >= cap ==> victim in Purge(m, now, window)
  {
    hide IsExpired;
    room := m;
    victim := 0;
    PurgeShrinks(m, now, window);
    if |room| >= cap {
      room := Purge(room, now, window);
      if |room| >= cap {
        var first :| first in room;
        victim := first;
        room := room - {first};
      }
    }
  }

  class ClientFailureBackoff {
    var shards: Table
    const policy: Policy
    const hash: Ip -> nat

    constructor (policy: Policy, hash: Ip -> nat)
      ensures this.policy == policy && this.hash == hash && shards == NewTable(policy)
    {
      this.policy := policy;
      this.hash := hash;
      this.shards := NewTable(policy);
    }

    method IsBlockedAt(ip: Ip, now: nat) returns (blocked: bool)
      modifies this
      ensures blocked == IsBlocked(Lookup(old(shards), hash, ip), now)
      ensures shards == Step(old(shards), hash, Question(ip, now), policy)
    {
      var s := ShardOf(shards, hash, ip);
      var entries: Shard := shards[s];
      assert shards[s := entries] == shards;
      if ip !in entries {
        return false;
      }
      var entry := entries[ip];
      assert entries[ip := entry] == entries;
      if entry.blockedUntil.None? {
        return false;
      }
      if now < entry.blockedUntil.value {
        return true;
      }
      entry := Entry(0, now, None);
      shards := shards[s := entries[ip := entry]];
      return false;
    }

    method RecordFailureAt(ip: Ip, now: nat) returns (ghost victim: Ip)
      modifies this
      ensures Allowed(old(shards), hash, Failure(ip, now, victim), policy)
      ensures shards == Step(old(shards), hash, Failure(ip, now, victim), policy)
    {
      hide MaxEntriesPerShard, MakeRoom, Purge;
      var s := ShardOf(shards, hash, ip);
      var entries: Shard := shards[s];
      entries, victim := MakeRoomIn(entries, MaxEntriesPerShard(policy), now, policy.window);
      var entry := if ip in entries then entries[ip] else Entry(0, now, None);
      var d := Elapsed(now, entry.windowStarted);
      if !(d.Some? && d.value <= policy.window) {
        entry := Entry(0, now, None);
      }
      entry := entry.(failures := SaturatingInc(entry.failures));
      if entry.failures >= policy.threshold {
        entry := entry.(blockedUntil := Some(now + policy.blockDuration));
      }
      shards := shards[s := entries[ip := entry]];
    }

    method RecordSuccess(ip: Ip)
      modifies this
      ensures shards == Step(old(shards), hash, Success(ip), policy)
    {
      var s := ShardOf(shards, hash, ip);
      shards := shards[s := shards[s] - {ip}];
    }
  }

  function NewTable(p: Policy): (t: Table)
    ensures forall s | 0 <= s < |t| :: t[s] == map[]
    ensures |t| == ShardCount(p.maxEntries)
  {
    seq(ShardCount(p.maxEntries), _ => map[])
  }

  lemma {:induction false} PurgeShrinks(m: Shard, now: nat, window: nat)
    ensures |Purge(m, now, window)| <= |m|
  {
    SubsetSize(Purge(m, now, window).Keys, m.Keys);
  }

  // ---------- Runs ----------

  function Run(history: seq<Event>, hash: Ip -> nat, p: Policy): Table {
    if history == [] then NewTable(p)
    else Step(Run(history[..|history| - 1], hash, p), hash, history[|history| - 1], p)
  }

  /** Every eviction in the history took an entry that was there. */
  ghost predicate Plausible(history: seq<Event>, hash: Ip -> nat, p: Policy) {
    history == [] ||
    var front := history[..|history| - 1];
    Plausible(front, hash, p) && Allowed(Run(front, hash, p), hash, history[|history| - 1], p)
  }

  /** Times of the client's failures since its last success, oldest first. */
  function FailuresSince(history: seq<Event>, ip: Ip): seq<nat> {
    if history == [] then []
    else
      var before := FailuresSince(history[..|history| - 1], ip);
      var last := history[|history| - 1];
      if last.ip != ip || last.Question? then before
      else if last.Success? then []
      else before + [last.now]
  }

  /**
   An entry is explained by failure times `ts`: the failures it counts are the last ones,
   all inside its window; it is blocked exactly from the threshold on, and then until the
   block duration after the last of them.
   */
  ghost predicate Explained(e: Entry, ts: seq<nat>, p: Policy) {
    && e.failures <= |ts|
    && (forall i | |ts| - e.failures <= i < |ts| ::
          e.windowStarted <= ts[i] <= e.windowStarted + p.window)
    && (e.blockedUntil.Some? <==> e.failures >= p.threshold)
    && (e.blockedUntil.Some? ==> |ts| > 0 && e.blockedUntil.value == ts[|ts| - 1] + p.blockDuration)
  }

  lemma FailIsExplained(e: Option<Entry>, ts: seq<nat>, now: nat, p: Policy)
    requires p.threshold >= 1 && (e.Some? ==> Explained(e.value, ts, p))
    ensures Explained(Fail(e, now, p), ts + [now], p)
  {
  }

  lemma AskIsExplained(e: Entry, ts: seq<nat>, now: nat, p: Policy)
    requires p.threshold >= 1 && Explained(e, ts, p)
    ensures Explained(Ask(Some(e), now).value, ts, p)
  {
  }

  ghost predicate ShardExplained(m: Shard, history: seq<Event>, p: Policy) {
    forall ip | ip in m :: Explained(m[ip], FailuresSince(history, ip), p)
  }

  lemma FailInIsExplained(m: Shard, history: seq<Event>, cap: nat, ip: Ip, now: nat, p: Policy, victim: Ip)
    requires p.threshold >= 1 && ShardExplained(m, history, p)
    ensures ShardExplained(FailIn(m, cap, ip, now, p, victim), history + [Failure(ip, now, victim)], p)
  {
    hide Explained, Fail, IsExpired;
    var ev := Failure(ip, now, victim);
    var next := history + [ev];
    assert next[..|next| - 1] == history;
    var room := MakeRoom(m, cap, now, p.window, victim);
    FailIsExplained(Get(room, ip), FailuresSince(history, ip), now, p);
  }

  lemma ElsewhereIsExplained(m: Shard, history: seq<Event>, ev: Event, p: Policy)
    requires ShardExplained(m, history, p) && (ev.Question? || ev.ip !in m)
    ensures ShardExplained(m, history + [ev], p)
  {
    var next := history + [ev];
    assert next[..|next| - 1] == history;
  }

  lemma AskInIsExplained(m: Shard, history: seq<Event>, ip: Ip, now: nat, p: Policy)
    requires p.threshold >= 1 && ShardExplained(m, history, p)
    ensures ShardExplained(AskIn(m, ip, now), history, p)
  {
    hide Explained;
    if ip in m {
      AskIsExplained(m[ip], FailuresSince(history, ip), now, p);
    }
  }

  /** An entry only ever lives in its own client's shard. */
  ghost predicate AtHome(t: Table, hash: Ip -> nat) {
    forall s, ip | 0 <= s < |t| && ip in t[s] :: s == ShardOf(t, hash, ip)
  }

  lemma StepKeepsHome(t: Table, hash: Ip -> nat, ev: Event, p: Policy)
    requires AtHome(t, hash)
    ensures AtHome(Step(t, hash, ev, p), hash)
  {
    hide Fail, IsExpired, MaxEntriesPerShard;
    var next := Step(t, hash, ev, p);
    forall s, ip | 0 <= s < |next| && ip in next[s] ensures s == ShardOf(next, hash, ip) {
      assert ShardOf(next, hash, ip) == ShardOf(t, hash, ip);
      if ip in t[s] {
        assert s == ShardOf(t, hash, ip);
      } else {
        assert s == ShardOf(t, hash, ev.ip) && ip == ev.ip;
      }
    }
  }

  lemma StepIsExplained(t: Table, history: seq<Event>, ev: Event, hash: Ip -> nat, p: Policy, s: nat)
    requires p.threshold >= 1 && s < |t| && AtHome(t, hash) && ShardExplained(t[s], history, p)
    ensures ShardExplained(Step(t, hash, ev, p)[s], history + [ev], p)
  {
    hide ShardExplained, FailIn, AskIn, MaxEntriesPerShard;
    if s != ShardOf(t, hash, ev.ip) {
      ElsewhereIsExplained(t[s], history, ev, p);
    } else {
      match ev
      case Failure(ip, now, victim) =>
        FailInIsExplained(t[s], history, MaxEntriesPerShard(p), ip, now, p, victim);
      case Success(ip) =>
        assert ShardExplained(t[s] - {ip}, history, p) by { FewerIsExplained(t[s], history, ip, p); }
        ElsewhereIsExplained(t[s] - {ip}, history, ev, p);
      case Question(ip, now) =>
        AskInIsExplained(t[s], history, ip, now, p);
        ElsewhereIsExplained(AskIn(t[s], ip, now), history, ev, p);
    }
  }

  lemma FewerIsExplained(m: Shard, history: seq<Event>, ip: Ip, p: Policy)
    requires ShardExplained(m, history, p)
    ensures ShardExplained(m - {ip}, history, p)
  {
  }

  /** Every stored entry, after any run with purges and evictions, is explained. */
  lemma {:induction false} RunIsExplained(history: seq<Event>, hash: Ip -> nat, p: Policy, s: nat)
    requires p.threshold >= 1 && s < |Run(history, hash, p)|
    ensures AtHome(Run(history, hash, p), hash)
    ensures ShardExplained(Run(history, hash, p)[s], history, p)
    decreases |history|
  {
    if history != [] {
      hide Step, AtHome, ShardExplained;
      var front, last := history[..|history| - 1], history[|history| - 1];
      assert history == front + [last];
      SameShards(front, hash, p);
      SameShards(history, hash, p);
      RunIsExplained(front, hash, p, s);
      StepKeepsHome(Run(front, hash, p), hash, last, p);
      StepIsExplained(Run(front, hash, p), front, last, hash, p, s);
    }
  }

  lemma {:induction false} SameShards(history: seq<Event>, hash: Ip -> nat, p: Policy)
    ensures |Run(history, hash, p)| == ShardCount(p.maxEntries)
  {
    if history != [] {
      SameShards(history[..|history| - 1], hash, p);
    }
  }

  /** The last n of the times fall in one interval of the given length, starting at w. */
  ghost predicate LastFallWithin(ts: seq<nat>, n: nat, w: nat, length: nat) {
    forall i | 0 <= i < |ts| && |ts| - n <= i :: w <= ts[i] <= w + length
  }

  /**
   Blocking is sound: when a client is reported blocked, its last `threshold` failures since
   its last success fall in one window, and the latest is younger than the block duration.
   No assumption on the order of the times.
   */
  lemma BlockedMeansFailures(history: seq<Event>, hash: Ip -> nat, p: Policy, ip: Ip, now: nat)
    requires p.threshold >= 1
    requires IsBlocked(Lookup(Run(history, hash, p), hash, ip), now)
    ensures var ts := FailuresSince(history, ip);
            && |ts| >= p.threshold && now < ts[|ts| - 1] + p.blockDuration
            && exists w: nat :: LastFallWithin(ts, p.threshold, w, p.window)
  {
    hide Run, FailuresSince;
    var t := Run(history, hash, p);
    var s := ShardOf(t, hash, ip);
    RunIsExplained(history, hash, p, s);
    var e := t[s][ip];
    assert Explained(e, FailuresSince(history, ip), p);
    assert LastFallWithin(FailuresSince(history, ip), p.threshold, e.windowStarted, p.window);
  }

  // ---------- Blocking happens ----------

  /** Failures of one client at the given times. */
  function Burst(ip: Ip, ts: seq<nat>, victim: Ip): seq<Event> {
    seq(|ts|, i requires 0 <= i < |ts| => Failure(ip, ts[i], victim))
  }

  /** The entry after failures at these times, counted from the first. */
  function Counted(ts: seq<nat>, p: Policy): Entry
    requires ts != []
  {
    Entry(if |ts| < 0xffff_ffff then |ts| else 0xffff_ffff, ts[0],
          if |ts| >= p.threshold then Some(ts[|ts| - 1] + p.blockDuration) else None)
  }

  /**
   One automaton counts all failures in the window opened by the first of them, when nothing
   counts any more, and from the threshold on blocks until the block duration after the last.
   */
  lemma {:induction false} BurstAloneIsCounted(history: seq<Event>, ip: Ip, ts: seq<nat>, victim: Ip, p: Policy)
    requires ts != [] && p.threshold >= 1
    requires forall i | 0 <= i < |ts| :: ts[0] <= ts[i] <= ts[0] + p.window
    requires var e := Alone(history, ip, p); e.None? || !InWindow(e.value, ts[0], p.window)
    ensures Alone(history + Burst(ip, ts, victim), ip, p) == Some(Counted(ts, p))
    decreases |ts|
  {
    var front := ts[..|ts| - 1];
    var events := history + Burst(ip, ts, victim);
    assert events[..|events| - 1] == history + Burst(ip, front, victim);
    if |ts| == 1 {
      assert history + Burst(ip, front, victim) == history;
    } else {
      BurstAloneIsCounted(history, ip, front, victim, p);
    }
  }

  /**
   The converse of soundness, for the table: while no shard is at its cap, failures of a
   client against which nothing counts any more, all in the window opened by the first, are
   all counted, and block the client exactly when they reach the threshold, until the block
   duration after the last.
   */
  lemma BurstIsCounted(history: seq<Event>, hash: Ip -> nat, ip: Ip, ts: seq<nat>, victim: Ip, p: Policy,
                       now: nat)
    requires ts != [] && p.threshold >= 1
    requires forall i | 0 <= i < |ts| :: ts[0] <= ts[i] <= ts[0] + p.window
    requires NeverFull(history + Burst(ip, ts, victim), hash, p)
    requires var e := Lookup(Run(history, hash, p), hash, ip); e.None? || !InWindow(e.value, ts[0], p.window)
    ensures var e := Lookup(Run(history + Burst(ip, ts, victim), hash, p), hash, ip);
            && e == Some(Counted(ts, p))
            && (IsBlocked(e, now) <==> |ts| >= p.threshold && now < ts[|ts| - 1] + p.blockDuration)
  {
    hide Run, NeverFull, Lookup, AloneFrom;
    NeverFullBefore(history, Burst(ip, ts, victim), hash, p);
    ShardingIsInvisible(history, hash, p, ip);
    ShardingIsInvisible(history + Burst(ip, ts, victim), hash, p, ip);
    BurstAloneIsCounted(history, ip, ts, victim, p);
  }

  lemma {:induction false} NeverFullBefore(history: seq<Event>, more: seq<Event>, hash: Ip -> nat, p: Policy)
    requires NeverFull(history + more, hash, p)
    ensures NeverFull(history, hash, p)
    decreases |more|
  {
    if more == [] {
      assert history + more == history;
    } else {
      var all := history + more;
      assert all[..|all| - 1] == history + more[..|more| - 1];
      NeverFullBefore(history, more[..|more| - 1], hash, p);
    }
  }

  // ---------- Size ----------

  lemma MakeRoomMakesRoom(m: Shard, cap: nat, now: nat, window: nat, victim: Ip)
    requires cap >= 1 && |m| <= cap
    requires |Purge(m, now, window)| >= cap ==> victim in Purge(m, now, window)
    ensures |MakeRoom(m, cap, now, window, victim)| < cap
  {
    var kept := Purge(m, now, window);
    PurgeShrinks(m, now, window);
    if |kept| >= cap {
      assert (kept - {victim}).Keys == kept.Keys - {victim};
      assert |kept.Keys - {victim}| == |kept.Keys| - 1;
    }
  }

  lemma {:induction false} ShardsStayBounded(history: seq<Event>, hash: Ip -> nat, p: Policy, s: nat)
    requires Plausible(history, hash, p) && s < |Run(history, hash, p)|
    ensures |Run(history, hash, p)[s]| <= MaxEntriesPerShard(p)
    decreases |history|
  {
    hide MaxEntriesPerShard, Fail, Ask;
    if history != [] {
      var front, ev := history[..|history| - 1], history[|history| - 1];
      var t := Run(front, hash, p);
      ShardsStayBounded(front, hash, p, s);
      if s == ShardOf(t, hash, ev.ip) {
        StepStaysBounded(t[s], MaxEntriesPerShard(p), ev, p);
      }
    }
  }

  lemma StepStaysBounded(m: Shard, cap: nat, ev: Event, p: Policy)
    requires 1 <= cap && |m| <= cap
    requires ev.Failure? && |Purge(m, ev.now, p.window)| >= cap ==> ev.victim in Purge(m, ev.now, p.window)
    ensures match ev
            case Failure(ip, now, victim) => |FailIn(m, cap, ip, now, p, victim)| <= cap
            case Success(ip) => |m - {ip}| <= cap
            case Question(ip, now) => |AskIn(m, ip, now)| <= cap
  {
    hide Fail, Purge, MakeRoom;
    match ev
    case Failure(ip, now, victim) =>
      MakeRoomMakesRoom(m, cap, now, p.window, victim);
      var room := MakeRoom(m, cap, now, p.window, victim);
      var next := FailIn(m, cap, ip, now, p, victim);
      assert next.Keys == room.Keys + {ip};
    case Success(ip) =>
      SubsetSize((m - {ip}).Keys, m.Keys);
    case Question(ip, now) =>
      assert AskIn(m, ip, now).Keys == m.Keys;
  }

  // ---------- Sharding ----------

  function Next(before: Option<Entry>, ev: Event, p: Policy): Option<Entry> {
    match ev
    case Failure(_, now, _) => Some(Fail(before, now, p))
    case Success(_) => None
    case Question(_, now) => Ask(before, now)
  }

  /** One automaton, started at `e` and fed only one client's events. */
  function AloneFrom(e: Option<Entry>, history: seq<Event>, ip: Ip, p: Policy): Option<Entry> {
    if history == [] then e
    else
      var before := AloneFrom(e, history[..|history| - 1], ip, p);
      var last := history[|history| - 1];
      if last.ip != ip then before else Next(before, last, p)
  }

  function Alone(history: seq<Event>, ip: Ip, p: Policy): Option<Entry> {
    AloneFrom(None, history, ip, p)
  }

  /** No failure ever found its shard at the cap. */
  ghost predicate NeverFull(history: seq<Event>, hash: Ip -> nat, p: Policy) {
    history == [] ||
    var front, last := history[..|history| - 1], history[|history| - 1];
    var t := Run(front, hash, p);
    && NeverFull(front, hash, p)
    && (last.Failure? ==> |t[ShardOf(t, hash, last.ip)]| < MaxEntriesPerShard(p))
  }

  /** Below the cap the table answers for each client as if that client were alone. */
  lemma {:induction false} ShardingIsInvisible(history: seq<Event>, hash: Ip -> nat, p: Policy, ip: Ip)
    requires NeverFull(history, hash, p)
    ensures Lookup(Run(history, hash, p), hash, ip) == Alone(history, ip, p)
    decreases |history|
  {
    if history != [] {
      hide Step, MaxEntriesPerShard, Fail, Ask;
      var front, last := history[..|history| - 1], history[|history| - 1];
      ShardingIsInvisible(front, hash, p, ip);
      StepAlone(Run(front, hash, p), hash, last, p, ip);
    }
  }

  lemma StepAlone(t: Table, hash: Ip -> nat, ev: Event, p: Policy, ip: Ip)
    requires ev.Failure? ==> |t[ShardOf(t, hash, ev.ip)]| < MaxEntriesPerShard(p)
    ensures Lookup(Step(t, hash, ev, p), hash, ip)
         == var before := Lookup(t, hash, ip);
            if ev.ip != ip then before else Next(before, ev, p)
  {
    hide MaxEntriesPerShard, Fail, Purge;
  }

  // ---------- Purging ----------

  /** A block ends no earlier than its window began. */
  ghost predicate Sane(e: Entry) {
    e.blockedUntil.Some? ==> e.windowStarted <= e.blockedUntil.value
  }

  ghost predicate ShardSane(m: Shard) {
    forall ip | ip in m :: Sane(m[ip])
  }

  lemma ShardStaysSane(m: Shard, cap: nat, ip: Ip, now: nat, p: Policy, victim: Ip)
    requires ShardSane(m)
    ensures ShardSane(FailIn(m, cap, ip, now, p, victim)) && ShardSane(m - {ip}) && ShardSane(AskIn(m, ip, now))
  {
    hide IsExpired;
  }

  lemma {:induction false} RunIsSane(history: seq<Event>, hash: Ip -> nat, p: Policy, s: nat)
    requires s < |Run(history, hash, p)|
    ensures ShardSane(Run(history, hash, p)[s])
    decreases |history|
  {
    if history != [] {
      hide FailIn, AskIn, ShardSane, MaxEntriesPerShard;
      var front, last := history[..|history| - 1], history[|history| - 1];
      RunIsSane(front, hash, p, s);
      var m: Shard := Run(front, hash, p)[s];
      if last.Failure? {
        ShardStaysSane(m, MaxEntriesPerShard(p), last.ip, last.now, p, last.victim);
      } else if last.Question? {
        ShardStaysSane(m, MaxEntriesPerShard(p), last.ip, last.now, p, last.ip);
      } else {
        ShardStaysSane(m, MaxEntriesPerShard(p), last.ip, 0, p, last.ip);
      }
    }
  }

  /** An entry once expired never blocks again, and the next failure starts afresh anyway. */
  lemma PurgedEntryIsInert(e: Entry, now: nat, later: nat, p: Policy)
    requires Sane(e) && IsExpired(e, now, p.window) && now <= later
    ensures !IsBlocked(Some(e), later)
    ensures Fail(Some(e), later, p) == Fail(None, later, p)
  {
  }

  /** So it is for every entry of every table that a run can reach, under any policy. */
  lemma PurgeForgetsNothing(history: seq<Event>, hash: Ip -> nat, p: Policy, ip: Ip, now: nat, later: nat)
    requires now <= later
    requires var e := Lookup(Run(history, hash, p), hash, ip); e.Some? && IsExpired(e.value, now, p.window)
    ensures var e := Lookup(Run(history, hash, p), hash, ip);
            !IsBlocked(e, later) && Fail(e, later, p) == Fail(None, later, p)
  {
    hide Run, IsExpired, Fail;
    var t := Run(history, hash, p);
    RunIsSane(history, hash, p, ShardOf(t, hash, ip));
    PurgedEntryIsInert(Lookup(t, hash, ip).value, now, later, p);
  }

  // ---------- Whether purging shows ----------

  /** Questions and failures come no earlier than `now`. */
  ghost predicate Later(events: seq<Event>, now: nat) {
    forall i | 0 <= i < |events| :: events[i].Success? || events[i].now >= now
  }

  /** Whether the entry was kept or purged, the answer at time t after these events is the same. */
  ghost predicate SameAnswer(e: Entry, events: seq<Event>, ip: Ip, p: Policy, t: nat) {
    IsBlocked(AloneFrom(Some(e), events, ip, p), t) == IsBlocked(AloneFrom(None, events, ip, p), t)
  }

  /** Nothing that happens from `now` on can tell. */
  ghost predicate PurgeIsInvisible(e: Entry, now: nat, ip: Ip, p: Policy) {
    forall events: seq<Event>, t: nat | Later(events, now) && t >= now :: SameAnswer(e, events, ip, p, t)
  }

  /** An expired entry without a block stays as it is until it is as good as gone. */
  lemma {:induction false} UnblockedStaysInert(e: Entry, now: nat, events: seq<Event>, ip: Ip, p: Policy)
    requires e.blockedUntil.None? && IsExpired(e, now, p.window) && Later(events, now)
    ensures var kept, gone := AloneFrom(Some(e), events, ip, p), AloneFrom(None, events, ip, p);
            kept == gone || (kept == Some(e) && gone == None)
    decreases |events|
  {
    if events != [] {
      hide Fail, IsExpired;
      var last := events[|events| - 1];
      UnblockedStaysInert(e, now, events[..|events| - 1], ip, p);
      if last.Failure? {
        PurgedEntryIsInert(e, now, last.now, p);
      }
    }
  }

  function Until(e: Option<Entry>): Option<nat> {
    if e.Some? then e.value.blockedUntil else None
  }

  /** When every failure blocks, how the failures are counted does not show. */
  lemma {:induction false} SingleFailureBlocks(e: Entry, now: nat, events: seq<Event>, ip: Ip, p: Policy)
    requires p.threshold <= 1
    ensures var kept, gone := AloneFrom(Some(e), events, ip, p), AloneFrom(None, events, ip, p);
            Until(kept) == Until(gone) || (kept == Some(e) && gone == None)
    decreases |events|
  {
    if events != [] {
      SingleFailureBlocks(e, now, events[..|events| - 1], ip, p);
    }
  }

  /** An empty window leaves nothing for a later failure to be added to. */
  lemma {:induction false} EmptyWindowForgets(e: Entry, now: nat, events: seq<Event>, ip: Ip, p: Policy)
    requires p.window == 0 && Sane(e) && IsExpired(e, now, p.window) && Later(events, now)
    ensures var kept, gone := AloneFrom(Some(e), events, ip, p), AloneFrom(None, events, ip, p);
            || kept == gone || (kept == Some(e) && gone == None)
            || (gone == None && kept.Some? && kept.value == Entry(0, kept.value.windowStarted, None))
    decreases |events|
  {
    if events != [] {
      hide IsExpired;
      var last := events[|events| - 1];
      EmptyWindowForgets(e, now, events[..|events| - 1], ip, p);
      if last.Failure? {
        PurgedEntryIsInert(e, now, last.now, p);
      }
    }
  }

  function Repeated(ip: Ip, now: nat, n: nat): seq<Event> {
    seq(n, _ => Failure(ip, now, ip))
  }

  /** Fewer than `threshold` failures at one instant, in an open window or opening one. */
  lemma {:induction false} RepeatedIsCounted(e: Option<Entry>, before: seq<Event>, ip: Ip, now: nat, n: nat, p: Policy)
    requires 1 <= n < p.threshold
    requires var b := AloneFrom(e, before, ip, p);
             b.None? || (b.value.failures == 0 && b.value.blockedUntil.None? && InWindow(b.value, now, p.window))
    ensures var b := AloneFrom(e, before, ip, p);
            AloneFrom(e, before + Repeated(ip, now, n), ip, p)
            == Some(Entry(n, if b.Some? then b.value.windowStarted else now, None))
    decreases n
  {
    var events := before + Repeated(ip, now, n);
    assert events[..|events| - 1] == before + Repeated(ip, now, n - 1);
    if n == 1 {
      assert before + Repeated(ip, now, 0) == before;
    } else {
      RepeatedIsCounted(e, before, ip, now, n - 1, p);
    }
  }

  /** A question, failures one short of the threshold as late as its window allows, and one more. */
  function Telltale(ip: Ip, now: nat, p: Policy): seq<Event>
    requires p.threshold >= 1
  {
    [Question(ip, now)] + Repeated(ip, now + p.window, p.threshold - 1)
    + [Failure(ip, now + p.window + 1, ip)]
  }

  /**
   Started at e, the telltale events end in a block, until the block duration after the last of
   them, exactly when there was no entry to ask about.
   */
  lemma TelltaleTells(e: Option<Entry>, now: nat, ip: Ip, p: Policy)
    requires p.threshold >= 2 && p.window >= 1
    requires e.Some? ==> e.value.blockedUntil.Some? && now >= e.value.blockedUntil.value
    ensures forall t: nat | t < now + p.window + 1 + p.blockDuration ::
              IsBlocked(AloneFrom(e, Telltale(ip, now, p), ip, p), t) <==> e.None?
  {
    var asked := [Question(ip, now)];
    assert asked[..0] == [] && AloneFrom(e, [], ip, p) == e;
    assert AloneFrom(e, asked, ip, p) == Ask(e, now);
    RepeatedIsCounted(e, asked, ip, now + p.window, p.threshold - 1, p);
    var events := Telltale(ip, now, p);
    assert events[..|events| - 1] == asked + Repeated(ip, now + p.window, p.threshold - 1);
  }

  lemma InvisibleCases(e: Entry, now: nat, events: seq<Event>, ip: Ip, p: Policy, t: nat)
    requires Sane(e) && IsExpired(e, now, p.window) && Later(events, now) && t >= now
    requires e.blockedUntil.None? || p.threshold <= 1 || p.window == 0
    ensures SameAnswer(e, events, ip, p, t)
  {
    hide AloneFrom, Later;
    if e.blockedUntil.None? {
      UnblockedStaysInert(e, now, events, ip, p);
    } else if p.threshold <= 1 {
      SingleFailureBlocks(e, now, events, ip, p);
    } else {
      EmptyWindowForgets(e, now, events, ip, p);
    }
  }

  /**
   Purging an expired entry is invisible, whatever comes later and with times in any order, if
   and only if the entry was not blocked, or a single failure blocks, or the window is empty. Otherwise a question about
   the client whose block is over restarts the window of a kept entry, and a purged one has
   none.
   */
  lemma PurgeInvisibleExact(history: seq<Event>, hash: Ip -> nat, p: Policy, ip: Ip, e: Entry, now: nat)
    requires Lookup(Run(history, hash, p), hash, ip) == Some(e) && IsExpired(e, now, p.window)
    ensures PurgeIsInvisible(e, now, ip, p)
       <==> e.blockedUntil.None? || p.threshold <= 1 || p.window == 0
  {
    hide Run, AloneFrom, Telltale, Later, SameAnswer;
    RunIsSane(history, hash, p, ShardOf(Run(history, hash, p), hash, ip));
    if e.blockedUntil.None? || p.threshold <= 1 || p.window == 0 {
      forall events: seq<Event>, t: nat | Later(events, now) && t >= now
        ensures SameAnswer(e, events, ip, p, t)
      {
        InvisibleCases(e, now, events, ip, p, t);
      }
    } else {
      TelltaleShows(e, now, ip, p);
      TelltaleIsLater(now, ip, p);
      assert !SameAnswer(e, Telltale(ip, now, p), ip, p, now + p.window);
    }
  }

  lemma TelltaleShows(e: Entry, now: nat, ip: Ip, p: Policy)
    requires p.threshold >= 2 && p.window >= 1
    requires e.blockedUntil.Some? && IsExpired(e, now, p.window)
    ensures !SameAnswer(e, Telltale(ip, now, p), ip, p, now + p.window)
    ensures p.blockDuration >= 1 ==> !SameAnswer(e, Telltale(ip, now, p), ip, p, now + p.window + 1)
  {
    hide AloneFrom, Telltale;
    TelltaleTells(Some(e), now, ip, p);
    TelltaleTells(None, now, ip, p);
  }

  // ---------- Whether purging shows on a clock that does not run backwards ----------

  /** From `now` on questions and failures come in order, and none after t. */
  ghost predicate InOrder(events: seq<Event>, now: nat, t: nat) {
    && now <= t
    && (forall i | 0 <= i < |events| && !events[i].Success? :: now <= events[i].now <= t)
    && (forall i, j | 0 <= i < j < |events| && !events[i].Success? && !events[j].Success? ::
          events[i].now <= events[j].now)
  }

  ghost predicate PurgeIsInvisibleInOrder(e: Entry, now: nat, ip: Ip, p: Policy) {
    forall events: seq<Event>, t: nat | InOrder(events, now, t) :: SameAnswer(e, events, ip, p, t)
  }

  /** With an empty block duration a block is over as soon as it begins. */
  lemma {:induction false} EmptyBlockIsOver(e: Option<Entry>, now: nat, events: seq<Event>, ip: Ip, p: Policy, t: nat)
    requires p.blockDuration == 0 && now <= t && (Until(e).Some? ==> Until(e).value <= now)
    requires forall i | 0 <= i < |events| && !events[i].Success? :: now <= events[i].now <= t
    ensures var u := Until(AloneFrom(e, events, ip, p)); u.Some? ==> u.value <= t
    decreases |events|
  {
    if events != [] {
      EmptyBlockIsOver(e, now, events[..|events| - 1], ip, p, t);
    }
  }

  lemma InOrderCases(e: Entry, now: nat, events: seq<Event>, ip: Ip, p: Policy, t: nat)
    requires Sane(e) && IsExpired(e, now, p.window) && InOrder(events, now, t)
    requires e.blockedUntil.None? || p.threshold <= 1 || p.window == 0 || p.blockDuration == 0
    ensures SameAnswer(e, events, ip, p, t)
  {
    hide AloneFrom;
    if e.blockedUntil.None? || p.threshold <= 1 || p.window == 0 {
      InvisibleCases(e, now, events, ip, p, t);
    } else {
      EmptyBlockIsOver(Some(e), now, events, ip, p, t);
      EmptyBlockIsOver(None, now, events, ip, p, t);
    }
  }

  /** On such a clock an empty block duration hides the purge too, and nothing else does. */
  lemma PurgeInvisibleInOrderExact(history: seq<Event>, hash: Ip -> nat, p: Policy, ip: Ip, e: Entry, now: nat)
    requires Lookup(Run(history, hash, p), hash, ip) == Some(e) && IsExpired(e, now, p.window)
    ensures PurgeIsInvisibleInOrder(e, now, ip, p)
       <==> e.blockedUntil.None? || p.threshold <= 1 || p.window == 0 || p.blockDuration == 0
  {
    hide Run, AloneFrom, Telltale, InOrder, SameAnswer;
    RunIsSane(history, hash, p, ShardOf(Run(history, hash, p), hash, ip));
    if e.blockedUntil.None? || p.threshold <= 1 || p.window == 0 || p.blockDuration == 0 {
      forall events: seq<Event>, t: nat | InOrder(events, now, t) ensures SameAnswer(e, events, ip, p, t) {
        InOrderCases(e, now, events, ip, p, t);
      }
    } else {
      TelltaleShows(e, now, ip, p);
      TelltaleInOrder(now, ip, p);
      assert !SameAnswer(e, Telltale(ip, now, p), ip, p, now + p.window + 1);
    }
  }

  lemma TelltaleInOrder(now: nat, ip: Ip, p: Policy)
    requires p.threshold >= 1
    ensures InOrder(Telltale(ip, now, p), now, now + p.window + 1)
  {
  }

  lemma TelltaleIsLater(now: nat, ip: Ip, p: Policy)
    requires p.threshold >= 1
    ensures Later(Telltale(ip, now, p), now)
  {
  }
}
