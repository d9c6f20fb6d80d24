/**
 The resolver's caches: positive and negative answers with a time to live, bounded and
 evicted, cleared on reconfiguration, and a fallback shared by googlevideo hosts. What the
 servers answer, the clock and the evicted keys are inputs; `isPrivate` and `isGoogleVideo`
 are the two classifications the resolver consults.
 */
module ResolverCache {
  import opened Wrappers
  import opened Bytes
  import opened DnsKey
  import opened Sets

  type Ip = nat

  datatype Addr = Addr(ip: Ip, port: u16)

  datatype Config = Config(blockPrivateIps: bool, allowed: iset<Key>)

  const DNS_POSITIVE_CACHE_TTL: nat := 30
  const DNS_NEGATIVE_CACHE_TTL: nat := 15
  const GOOGLEVIDEO_FALLBACK_CACHE_TTL: nat := 30
  const DNS_POSITIVE_CACHE_MAX_ENTRIES: nat := 8192
  const DNS_NEGATIVE_CACHE_MAX_ENTRIES: nat := 4096

  datatype Cached<V> = Cached(expiresAt: nat, value: V)

  type Cache<V> = map<Key, Cached<V>>

  // ---------- Bounded insertion ----------

  function Unexpired<V>(m: Cache<V>, now: nat): Cache<V> {
    map k | k in m && m[k].expiresAt > now :: m[k]
  }

  function Room<V>(m: Cache<V>, cap: nat, now: nat, victim: Key): Cache<V> {
    if |m| < cap then m
    else
      var kept := Unexpired(m, now);
      if |kept| < cap then kept else kept - {victim}
  }

  function Insert<V>(m: Cache<V>, cap: nat, now: nat, victim: Key, key: Key, e: Cached<V>): Cache<V> {
    Room(m, cap, now, victim)[key := e]
  }

  /** A victim, when one is needed, is in the cache. */
  ghost predicate Evictable<V>(m: Cache<V>, cap: nat, now: nat, victim: Key) {
    |Unexpired(m, now)| >= cap ==> victim in Unexpired(m, now)
  }

  lemma InsertIsBounded<V>(m: Cache<V>, cap: nat, now: nat, victim: Key, key: Key, e: Cached<V>)
    requires 1 <= cap && |m| <= cap && Evictable(m, cap, now, victim)
    ensures |Insert(m, cap, now, victim, key, e)| <= cap
  {
    RoomIsLeft(m, cap, now, victim);
    hide Room;
    var room := Room(m, cap, now, victim);
    assert Insert(m, cap, now, victim, key, e).Keys == room.Keys + {key};
  }

  lemma RoomIsLeft<V>(m: Cache<V>, cap: nat, now: nat, victim: Key)
    requires 1 <= cap && |m| <= cap && Evictable(m, cap, now, victim)
    ensures |Room(m, cap, now, victim)| < cap
  {
    var kept := Unexpired(m, now);
    SubsetSize(kept.Keys, m.Keys);
    hide Unexpired;
    if |m| >= cap && |kept| >= cap {
      assert (kept - {victim}).Keys == kept.Keys - {victim};
      assert |kept.Keys - {victim}| == |kept.Keys| - 1;
    }
  }

  // ---------- The resolver ----------

  datatype State = State(
    config: Config,
    positive: Cache<seq<Addr>>,
    negative: Cache<ErrorKind>,
    fallback: Option<Cached<seq<Ip>>>)

  /** The two classifications of the world outside; of a host they see nothing but the key. */
  datatype World = World(isPrivate: Ip -> bool, isGoogleVideo: Key -> bool)

  /**
   One call: `literal` when the host is an address, `answer` what the servers would say,
   `asked` when the caches are consulted, `answered` when the answer is stored, and the key
   each cache would evict.
   */
  datatype Query = Query(key: Key, literal: Option<Ip>, answer: Result<seq<Addr>, ErrorKind>,
                         asked: nat, answered: nat, victim: Key, negativeVictim: Key)

  datatype Resolved = Resolved(state: State, result: Result<seq<Addr>, ErrorKind>)

  function Public(addrs: seq<Addr>, w: World): seq<Addr> {
    if addrs == [] then []
    else (if w.isPrivate(addrs[0].ip) then [] else [addrs[0]]) + Public(addrs[1..], w)
  }

  function FilterPrivate(key: Key, addrs: seq<Addr>, c: Config, w: World): Result<seq<Addr>, ErrorKind> {
    if !c.blockPrivateIps || key in c.allowed then Ok(addrs)
    else
      var public := Public(addrs, w);
      if public == [] then Err(PermissionDenied) else Ok(public)
  }

  function IpsOf(addrs: seq<Addr>): seq<Ip> {
    seq(|addrs|, i requires 0 <= i < |addrs| => addrs[i].ip)
  }

  function WithPort(ips: seq<Ip>, port: u16): seq<Addr> {
    seq(|ips|, i requires 0 <= i < |ips| => Addr(ips[i], port))
  }

  predicate Live<V>(m: Cache<V>, key: Key, now: nat) {
    key in m && now < m[key].expiresAt
  }

  function RecordPositive(s: State, q: Query, addrs: seq<Addr>): State {
    if addrs == [] then s
    else
      s.(positive := Insert(s.positive, DNS_POSITIVE_CACHE_MAX_ENTRIES, q.answered, q.victim, q.key,
                            Cached(q.answered + DNS_POSITIVE_CACHE_TTL, addrs)))
  }

  function RecordNegative(s: State, q: Query, e: ErrorKind): State {
    s.(negative := Insert(s.negative, DNS_NEGATIVE_CACHE_MAX_ENTRIES, q.answered, q.negativeVictim, q.key,
                          Cached(q.answered + DNS_NEGATIVE_CACHE_TTL, e)))
  }

  /** Addresses the fallback offers this query, if any. */
  function FallbackAddrs(s: State, q: Query, w: World): seq<Addr> {
    if w.isGoogleVideo(q.key) && s.fallback.Some? && q.answered < s.fallback.value.expiresAt
    then WithPort(s.fallback.value.value, q.key.port) else []
  }

  /** A stale fallback is dropped when a googlevideo host looks at it. */
  function AfterFallback(s: State, q: Query, w: World): State {
    if w.isGoogleVideo(q.key) && s.fallback.Some? && q.answered >= s.fallback.value.expiresAt
    then s.(fallback := None) else s
  }

  function Answered(s: State, q: Query, w: World): Resolved {
    match q.answer
    case Ok(found) =>
      (match FilterPrivate(q.key, found, s.config, w)
       case Err(e) => Resolved(s, Err(e))
       case Ok(addrs) =>
         var t := RecordPositive(s.(negative := s.negative - {q.key}), q, addrs);
         if w.isGoogleVideo(q.key) && addrs != [] then
           var f := Cached(q.answered + GOOGLEVIDEO_FALLBACK_CACHE_TTL, IpsOf(addrs));
           Resolved(t.(fallback := Some(f)), Ok(addrs))
         else Resolved(t, Ok(addrs)))
    case Err(e) =>
      var t := AfterFallback(s.(positive := s.positive - {q.key}, negative := s.negative - {q.key}), q, w);
      var addrs := FallbackAddrs(s, q, w);
      if addrs != [] then Resolved(RecordPositive(t, q, addrs), Ok(addrs))
      else if w.isGoogleVideo(q.key) then Resolved(t, Err(e))
      else Resolved(RecordNegative(t, q, e), Err(e))
  }

  function Resolve(s: State, q: Query, w: World): Resolved {
    if q.literal.Some? then
      Resolved(s, FilterPrivate(q.key, [Addr(q.literal.value, q.key.port)], s.config, w))
    else if Live(s.positive, q.key, q.asked) then Resolved(s, Ok(s.positive[q.key].value))
    else
      var s1 := s.(positive := s.positive - {q.key});
      if Live(s.negative, q.key, q.asked) then Resolved(s1, Err(s.negative[q.key].value))
      else Answered(s1.(negative := s.negative - {q.key}), q, w)
  }

  function Configured(c: Config): State {
    State(c, map[], map[], None)
  }

  class Resolver {
    var config: Config
    var positive: Cache<seq<Addr>>
    var negative: Cache<ErrorKind>
    var fallback: Option<Cached<seq<Ip>>>
    const world: World

    constructor (config: Config, world: World)
      ensures Abs() == Configured(config) && this.world == world
    {
      this.config := config;
      this.world := world;
      positive, negative, fallback := map[], map[], None;
    }

    function Abs(): State
      reads this
    {
      State(config, positive, negative, fallback)
    }

    method Configure(c: Config)
      modifies this
      ensures Abs() == Configured(c)
    {
      config := c;
      positive := map[];
      negative := map[];
      fallback := None;
    }

    /** Looks the key up and forgets it if it has expired. */
    method CachedPositiveAddrs(key: Key, now: nat) returns (r: Option<seq<Addr>>)
      modifies this`positive
      ensures Live(old(positive), key, now) ==> r == Some(old(positive)[key].value) && positive == old(positive)
      ensures !Live(old(positive), key, now) ==> r == None && positive == old(positive) - {key}
    {
      if key !in positive {
        assert positive - {key} == positive;
        return None;
      }
      if now >= positive[key].expiresAt {
        positive := positive - {key};
        return None;
      }
      return Some(positive[key].value);
    }

    method CachedNegativeError(key: Key, now: nat) returns (r: Option<ErrorKind>)
      modifies this`negative
      ensures Live(old(negative), key, now) ==> r == Some(old(negative)[key].value) && negative == old(negative)
      ensures !Live(old(negative), key, now) ==> r == None && negative == old(negative) - {key}
    {
      if key !in negative {
        assert negative - {key} == negative;
        return None;
      }
      if now >= negative[key].expiresAt {
        negative := negative - {key};
        return None;
      }
      return Some(negative[key].value);
    }

    method GoogleVideoFallbackAddrs(q: Query) returns (addrs: seq<Addr>)
      modifies this`fallback
      ensures addrs == FallbackAddrs(old(Abs()), q, world)
      ensures Abs() == AfterFallback(old(Abs()), q, world)
    {
      if !world.isGoogleVideo(q.key) || fallback.None? {
        return [];
      }
      if q.answered >= fallback.value.expiresAt {
        fallback := None;
        return [];
      }
      return WithPort(fallback.value.value, q.key.port);
    }

    method ResolveSocketAddrs(q: Query) returns (r: Result<seq<Addr>, ErrorKind>)
      modifies this
      ensures Resolved(Abs(), r) == Resolve(old(Abs()), q, world)
    {
      if q.literal.Some? {
        return FilterPrivate(q.key, [Addr(q.literal.value, q.key.port)], config, world);
      }
      var hit := CachedPositiveAddrs(q.key, q.asked);
      if hit.Some? {
        return Ok(hit.value);
      }
      var miss := CachedNegativeError(q.key, q.asked);
      if miss.Some? {
        return Err(miss.value);
      }
      match q.answer {
        case Ok(found) =>
          var filtered := FilterPrivate(q.key, found, config, world);
          if filtered.Err? {
            return Err(filtered.error);
          }
          var addrs := filtered.value;
          negative := negative - {q.key};
          positive := RecordPositive(Abs(), q, addrs).positive;
          if world.isGoogleVideo(q.key) && addrs != [] {
            fallback := Some(Cached(q.answered + GOOGLEVIDEO_FALLBACK_CACHE_TTL, IpsOf(addrs)));
          }
          return Ok(addrs);
        case Err(e) =>
          negative := negative - {q.key};
          positive := positive - {q.key};
          var addrs := GoogleVideoFallbackAddrs(q);
          if addrs != [] {
            positive := RecordPositive(Abs(), q, addrs).positive;
            return Ok(addrs);
          }
          if !world.isGoogleVideo(q.key) {
            negative := RecordNegative(Abs(), q, e).negative;
          }
          return Err(e);
      }
    }
  }

  // ---------- Runs ----------

  datatype Event = Configure(config: Config) | Ask(query: Query)

  function Step(s: State, ev: Event, w: World): State {
    match ev
    case Configure(c) => Configured(c)
    case Ask(q) => Resolve(s, q, w).state
  }

  function RunFrom(s: State, events: seq<Event>, w: World): State {
    if events == [] then s
    else Step(RunFrom(s, events[..|events| - 1], w), events[|events| - 1], w)
  }

  function Run(history: seq<Event>, start: Config, w: World): State {
    RunFrom(Configured(start), history, w)
  }

  /** Victims were in the cache they were evicted from. */
  ghost predicate Allowed(s: State, ev: Event) {
    ev.Ask? ==>
      var q := ev.query;
      && Evictable(s.positive - {q.key}, DNS_POSITIVE_CACHE_MAX_ENTRIES, q.answered, q.victim)
      && Evictable(s.negative - {q.key}, DNS_NEGATIVE_CACHE_MAX_ENTRIES, q.answered, q.negativeVictim)
  }

  ghost predicate Plausible(history: seq<Event>, start: Config, w: World) {
    history == [] ||
    var front := history[..|history| - 1];
    Plausible(front, start, w) && Allowed(Run(front, start, w), history[|history| - 1])
  }

  // ---------- The caches are disjoint and bounded ----------

  ghost predicate Disjoint(s: State) {
    s.positive.Keys !! s.negative.Keys
  }

  ghost predicate Bounded(s: State) {
    |s.positive| <= DNS_POSITIVE_CACHE_MAX_ENTRIES && |s.negative| <= DNS_NEGATIVE_CACHE_MAX_ENTRIES
  }

  lemma RoomShrinks<V>(m: Cache<V>, cap: nat, now: nat, victim: Key)
    ensures forall k | k in Room(m, cap, now, victim) :: k in m && m[k] == Room(m, cap, now, victim)[k]
  {
  }

  /** The caches are sound and hold nothing for the query being answered. */
  ghost predicate Ready(s: State, q: Query) {
    && Disjoint(s) && Bounded(s) && q.key !in s.positive && q.key !in s.negative
    && Evictable(s.positive, DNS_POSITIVE_CACHE_MAX_ENTRIES, q.answered, q.victim)
    && Evictable(s.negative, DNS_NEGATIVE_CACHE_MAX_ENTRIES, q.answered, q.negativeVictim)
  }

  lemma RecordPositiveKeepsCaches(s: State, q: Query, addrs: seq<Addr>)
    requires Ready(s, q)
    ensures Disjoint(RecordPositive(s, q, addrs)) && Bounded(RecordPositive(s, q, addrs))
  {
    hide Room, Evictable;
    if addrs != [] {
      RoomShrinks(s.positive, DNS_POSITIVE_CACHE_MAX_ENTRIES, q.answered, q.victim);
      InsertIsBounded(s.positive, DNS_POSITIVE_CACHE_MAX_ENTRIES, q.answered, q.victim, q.key,
                      Cached(q.answered + DNS_POSITIVE_CACHE_TTL, addrs));
    }
  }

  lemma RecordNegativeKeepsCaches(s: State, q: Query, e: ErrorKind)
    requires Ready(s, q)
    ensures Disjoint(RecordNegative(s, q, e)) && Bounded(RecordNegative(s, q, e))
  {
    hide Room, Evictable;
    RoomShrinks(s.negative, DNS_NEGATIVE_CACHE_MAX_ENTRIES, q.answered, q.negativeVictim);
    InsertIsBounded(s.negative, DNS_NEGATIVE_CACHE_MAX_ENTRIES, q.answered, q.negativeVictim, q.key,
                    Cached(q.answered + DNS_NEGATIVE_CACHE_TTL, e));
  }

  lemma ReadyIgnoresFallback(s: State, q: Query, w: World)
    requires Ready(s, q)
    ensures Ready(AfterFallback(s, q, w), q)
    ensures s.(negative := s.negative - {q.key}) == s
    ensures s.(positive := s.positive - {q.key}, negative := s.negative - {q.key}) == s
  {
    hide Evictable;
    assert s.positive - {q.key} == s.positive && s.negative - {q.key} == s.negative;
  }

  lemma SoundIgnoresFallback(s: State, f: Option<Cached<seq<Ip>>>)
    requires Disjoint(s) && Bounded(s)
    ensures Disjoint(s.(fallback := f)) && Bounded(s.(fallback := f))
  {
  }

  lemma ReadyIsSound(s: State, q: Query)
    requires Ready(s, q)
    ensures Disjoint(s) && Bounded(s)
  {
  }

  lemma AnsweredKeepsCaches(s: State, q: Query, w: World)
    requires Ready(s, q)
    ensures Disjoint(Answered(s, q, w).state) && Bounded(Answered(s, q, w).state)
  {
    hide Ready, Disjoint, Bounded, FilterPrivate, RecordPositive, RecordNegative, FallbackAddrs, AfterFallback;
    ReadyIgnoresFallback(s, q, w);
    var t := AfterFallback(s, q, w);
    ReadyIsSound(s, q);
    ReadyIsSound(t, q);
    match q.answer
    case Ok(found) =>
      var filtered := FilterPrivate(q.key, found, s.config, w);
      if filtered.Ok? {
        RecordPositiveKeepsCaches(s, q, filtered.value);
        SoundIgnoresFallback(RecordPositive(s, q, filtered.value), Answered(s, q, w).state.fallback);
      }
    case Err(e) =>
      RecordPositiveKeepsCaches(t, q, FallbackAddrs(s, q, w));
      RecordNegativeKeepsCaches(t, q, e);
  }

  lemma ForgetIsSmaller<V>(m: Cache<V>, key: Key)
    ensures |m - {key}| <= |m| && (m - {key}).Keys == m.Keys - {key}
  {
    SubsetSize((m - {key}).Keys, m.Keys);
  }

  lemma StepKeepsCaches(s: State, ev: Event, w: World)
    requires Disjoint(s) && Bounded(s) && Allowed(s, ev)
    ensures Disjoint(Step(s, ev, w)) && Bounded(Step(s, ev, w))
  {
    hide Answered, FilterPrivate, Evictable, Disjoint, Bounded;
    match ev
    case Configure(c) => NewCachesAreSound(c);
    case Ask(q) =>
      ForgetKeepsSound(s, q);
      AnsweredKeepsCaches(s.(positive := s.positive - {q.key}, negative := s.negative - {q.key}), q, w);
  }

  lemma ForgetKeepsSound(s: State, q: Query)
    requires Disjoint(s) && Bounded(s) && Allowed(s, Ask(q))
    ensures var t := s.(positive := s.positive - {q.key}); Disjoint(t) && Bounded(t)
    ensures Ready(s.(positive := s.positive - {q.key}, negative := s.negative - {q.key}), q)
  {
    hide Evictable;
    ForgetIsSmaller(s.positive, q.key);
    ForgetIsSmaller(s.negative, q.key);
  }

  /** On every run no key is in both caches, and neither outgrows its bound. */
  lemma {:induction false} CachesStaySound(history: seq<Event>, start: Config, w: World)
    requires Plausible(history, start, w)
    ensures Disjoint(Run(history, start, w)) && Bounded(Run(history, start, w))
    decreases |history|
  {
    if history != [] {
      hide Step, Disjoint, Bounded, Allowed;
      CachesStaySound(history[..|history| - 1], start, w);
      StepKeepsCaches(Run(history[..|history| - 1], start, w), history[|history| - 1], w);
    } else {
      hide Disjoint, Bounded;
      NewCachesAreSound(start);
    }
  }

  lemma NewCachesAreSound(c: Config)
    ensures Disjoint(Configured(c)) && Bounded(Configured(c))
  {
  }

  // ---------- A hit is recent and was stored under this configuration ----------

  /**
   Since the last reconfiguration, a query for this key returned these addresses and stored
   them one time-to-live before this entry expires.
   */
  ghost predicate Stored(history: seq<Event>, start: Config, w: World, key: Key, e: Cached<seq<Addr>>) {
    history != [] && history[|history| - 1].Ask? &&
    var front, q := history[..|history| - 1], history[|history| - 1].query;
    || Stored(front, start, w, key, e)
    || (&& q.key == key && q.literal.None?
        && Resolve(Run(front, start, w), q, w).result == Ok(e.value)
        && e.expiresAt == q.answered + DNS_POSITIVE_CACHE_TTL)
  }

  /** What one query can add to the positive cache: its own result, under its own key. */
  lemma ResolveStores(s: State, q: Query, w: World, key: Key)
    requires key in Resolve(s, q, w).state.positive
    ensures var e := Resolve(s, q, w).state.positive[key];
            || (key in s.positive && s.positive[key] == e)
            || (&& q.key == key && q.literal.None? && Resolve(s, q, w).result == Ok(e.value)
                && e.expiresAt == q.answered + DNS_POSITIVE_CACHE_TTL)
  {
    hide FilterPrivate, FallbackAddrs, Room, RecordNegative;
    var m := s.positive - {q.key};
    RoomShrinks(m, DNS_POSITIVE_CACHE_MAX_ENTRIES, q.answered, q.victim);
    assert m - {q.key} == m;
    RecordNegativeKeepsPositive(AfterFallback(
      s.(positive := m - {q.key}, negative := s.negative - {q.key} - {q.key}), q, w), q,
      if q.answer.Err? then q.answer.error else Other);
  }

  lemma RecordNegativeKeepsPositive(s: State, q: Query, e: ErrorKind)
    ensures RecordNegative(s, q, e).positive == s.positive
  {
  }

  lemma {:induction false} EntriesWereStored(history: seq<Event>, start: Config, w: World, key: Key)
    requires key in Run(history, start, w).positive
    ensures Stored(history, start, w, key, Run(history, start, w).positive[key])
    decreases |history|
  {
    hide Resolve;
    if history != [] && history[|history| - 1].Ask? {
      var front, q := history[..|history| - 1], history[|history| - 1].query;
      ResolveStores(Run(front, start, w), q, w, key);
      if key in Run(front, start, w).positive {
        EntriesWereStored(front, start, w, key);
      }
    }
  }

  /** The same for a stored error, which the servers gave for this key. */
  ghost predicate StoredError(history: seq<Event>, key: Key, e: Cached<ErrorKind>) {
    history != [] && history[|history| - 1].Ask? &&
    var front, q := history[..|history| - 1], history[|history| - 1].query;
    || StoredError(front, key, e)
    || (&& q.key == key && q.literal.None? && q.answer == Err(e.value)
        && e.expiresAt == q.answered + DNS_NEGATIVE_CACHE_TTL)
  }

  lemma ResolveStoresError(s: State, q: Query, w: World, key: Key)
    requires key in Resolve(s, q, w).state.negative
    ensures var e := Resolve(s, q, w).state.negative[key];
            || (key in s.negative && s.negative[key] == e)
            || (&& q.key == key && q.literal.None? && q.answer == Err(e.value)
                && e.expiresAt == q.answered + DNS_NEGATIVE_CACHE_TTL)
  {
    hide FilterPrivate, FallbackAddrs, Room;
    var m := s.negative - {q.key};
    RoomShrinks(m, DNS_NEGATIVE_CACHE_MAX_ENTRIES, q.answered, q.negativeVictim);
    assert m - {q.key} == m;
  }

  lemma {:induction false} ErrorsWereStored(history: seq<Event>, start: Config, w: World, key: Key)
    requires key in Run(history, start, w).negative
    ensures StoredError(history, key, Run(history, start, w).negative[key])
    decreases |history|
  {
    hide Resolve;
    if history != [] && history[|history| - 1].Ask? {
      var front, q := history[..|history| - 1], history[|history| - 1].query;
      ResolveStoresError(Run(front, start, w), q, w, key);
      if key in Run(front, start, w).negative {
        ErrorsWereStored(front, start, w, key);
      }
    }
  }

  /** A positive cache hit returns addresses stored under the present configuration, not yet expired. */
  lemma HitIsFresh(history: seq<Event>, start: Config, w: World, q: Query)
    requires q.literal.None? && Live(Run(history, start, w).positive, q.key, q.asked)
    ensures var e := Run(history, start, w).positive[q.key];
            && Resolve(Run(history, start, w), q, w) == Resolved(Run(history, start, w), Ok(e.value))
            && Stored(history, start, w, q.key, e) && q.asked < e.expiresAt
  {
    hide Run, Stored;
    EntriesWereStored(history, start, w, q.key);
  }

  /** So does a negative hit with an error; a plausible run never has both. */
  lemma ErrorHitIsFresh(history: seq<Event>, start: Config, w: World, q: Query)
    requires q.literal.None? && Plausible(history, start, w)
    requires Live(Run(history, start, w).negative, q.key, q.asked)
    ensures var e := Run(history, start, w).negative[q.key];
            && Resolve(Run(history, start, w), q, w) == Resolved(Run(history, start, w), Err(e.value))
            && StoredError(history, q.key, e) && q.asked < e.expiresAt
  {
    hide Run, StoredError, Plausible, Answered;
    var s := Run(history, start, w);
    CachesStaySound(history, start, w);
    assert s.positive - {q.key} == s.positive;
    ErrorsWereStored(history, start, w, q.key);
  }

  /**
   A lookup during the life of what is stored for `key`, in which no eviction takes it. (A
   victim matters only to a full cache.)
   */
  ghost predicate Spares(ev: Event, key: Key, until: nat) {
    ev.Ask? && (ev.query.literal.None? ==>
      && ev.query.answered < until && ev.query.victim != key && ev.query.negativeVictim != key
      && (ev.query.key == key ==> ev.query.asked < until))
  }

  ghost predicate AllSpare(events: seq<Event>, key: Key, until: nat) {
    forall i | 0 <= i < |events| :: Spares(events[i], key, until)
  }

  lemma RoomSpares<V>(m: Cache<V>, cap: nat, now: nat, victim: Key, key: Key)
    requires victim != key && (key in m ==> now < m[key].expiresAt)
    ensures key in Room(m, cap, now, victim) <==> key in m
  {
  }

  /** Looking up one key leaves every other key's entries alone, if it spares them. */
  lemma ResolveSparesOthers(s: State, q: Query, w: World, key: Key)
    requires q.literal.None? && q.key != key && q.victim != key && q.negativeVictim != key
    requires key in s.positive ==> q.answered < s.positive[key].expiresAt
    requires key in s.negative ==> q.answered < s.negative[key].expiresAt
    ensures var t := Resolve(s, q, w).state;
            && (key in t.positive <==> key in s.positive) && (key in t.negative <==> key in s.negative)
            && (key in s.positive ==> t.positive[key] == s.positive[key])
            && (key in s.negative ==> t.negative[key] == s.negative[key])
  {
    hide FilterPrivate, FallbackAddrs, Room;
    var pm, nm := s.positive - {q.key}, s.negative - {q.key};
    RoomSpares(pm, DNS_POSITIVE_CACHE_MAX_ENTRIES, q.answered, q.victim, key);
    RoomShrinks(pm, DNS_POSITIVE_CACHE_MAX_ENTRIES, q.answered, q.victim);
    RoomSpares(nm, DNS_NEGATIVE_CACHE_MAX_ENTRIES, q.answered, q.negativeVictim, key);
    RoomShrinks(nm, DNS_NEGATIVE_CACHE_MAX_ENTRIES, q.answered, q.negativeVictim);
    assert pm - {q.key} == pm && nm - {q.key} == nm;
  }

  /** The addresses cached for the key are these, until then. */
  ghost predicate HoldsAddrs(s: State, key: Key, until: nat, addrs: seq<Addr>) {
    key in s.positive && s.positive[key] == Cached(until, addrs) && key !in s.negative
  }

  ghost predicate HoldsError(s: State, key: Key, until: nat, e: ErrorKind) {
    key in s.negative && s.negative[key] == Cached(until, e) && key !in s.positive
  }

  lemma StepSpares(s: State, ev: Event, w: World, key: Key, until: nat)
    requires Spares(ev, key, until)
    ensures forall addrs | HoldsAddrs(s, key, until, addrs) :: HoldsAddrs(Step(s, ev, w), key, until, addrs)
    ensures forall e | HoldsError(s, key, until, e) :: HoldsError(Step(s, ev, w), key, until, e)
  {
    var q := ev.query;
    if q.literal.None? {
      if q.key != key {
        hide Resolve;
        if (key in s.positive ==> q.answered < s.positive[key].expiresAt)
           && (key in s.negative ==> q.answered < s.negative[key].expiresAt) {
          ResolveSparesOthers(s, q, w, key);
        }
      } else {
        hide Answered;
        assert key !in s.positive ==> s.positive - {key} == s.positive;
      }
    }
  }

  lemma {:induction false} RunSpares(s: State, events: seq<Event>, w: World, key: Key, until: nat)
    requires AllSpare(events, key, until)
    ensures forall addrs | HoldsAddrs(s, key, until, addrs) :: HoldsAddrs(RunFrom(s, events, w), key, until, addrs)
    ensures forall e | HoldsError(s, key, until, e) :: HoldsError(RunFrom(s, events, w), key, until, e)
    decreases |events|
  {
    if events != [] {
      hide Step, HoldsAddrs, HoldsError, Spares;
      RunSpares(s, events[..|events| - 1], w, key, until);
      StepSpares(RunFrom(s, events[..|events| - 1], w), events[|events| - 1], w, key, until);
    }
  }

  /**
   What a lookup that had to ask returned is what every later lookup of the key returns until
   it expires, whatever was looked up in between, unless the caches were reconfigured or the
   entry evicted. Errors are remembered when the servers gave them, for hosts outside
   googlevideo.
   */
  lemma AnswerIsRemembered(s: State, q: Query, between: seq<Event>, later: Query, w: World)
    requires q.literal.None? && later.literal.None? && q.key == later.key
    requires !Live(s.positive, q.key, q.asked) && !Live(s.negative, q.key, q.asked)
    ensures var r := Resolve(s, q, w);
            var again := Resolve(RunFrom(r.state, between, w), later, w).result;
            match r.result
            case Ok(addrs) =>
              var until := q.answered + DNS_POSITIVE_CACHE_TTL;
              addrs != [] && AllSpare(between, q.key, until) && later.asked < until ==> again == r.result
            case Err(e) =>
              var until := q.answered + DNS_NEGATIVE_CACHE_TTL;
              (q.answer == Err(e) && !w.isGoogleVideo(q.key)
               && AllSpare(between, q.key, until) && later.asked < until) ==> again == r.result
  {
    hide Answered, RunFrom, AllSpare, FilterPrivate;
    var ready := s.(positive := s.positive - {q.key}, negative := s.negative - {q.key});
    AnsweredStores(ready, q, w);
    var r := Resolve(s, q, w);
    assert r == Answered(ready, q, w);
    var until := q.answered + (if r.result.Ok? then DNS_POSITIVE_CACHE_TTL else DNS_NEGATIVE_CACHE_TTL);
    if AllSpare(between, q.key, until) {
      RunSpares(r.state, between, w, q.key, until);
    }
  }

  lemma AnsweredStores(s: State, q: Query, w: World)
    requires q.key !in s.positive && q.key !in s.negative
    ensures var r := Answered(s, q, w);
            match r.result
            case Ok(addrs) =>
              addrs != [] ==> HoldsAddrs(r.state, q.key, q.answered + DNS_POSITIVE_CACHE_TTL, addrs)
            case Err(e) =>
              q.answer == Err(e) && !w.isGoogleVideo(q.key) ==>
                HoldsError(r.state, q.key, q.answered + DNS_NEGATIVE_CACHE_TTL, e)
  {
    hide FilterPrivate, FallbackAddrs, Room;
  }

  // ---------- Private addresses ----------

  ghost predicate AllPublic(addrs: seq<Addr>, w: World) {
    forall i | 0 <= i < |addrs| :: !w.isPrivate(addrs[i].ip)
  }

  /** Keys for which the configuration promises public addresses only. */
  ghost predicate Guarded(key: Key, c: Config) {
    c.blockPrivateIps && key !in c.allowed
  }

  lemma {:induction false} PublicIsPublic(addrs: seq<Addr>, w: World)
    ensures AllPublic(Public(addrs, w), w)
    ensures AllPublic(addrs, w) ==> Public(addrs, w) == addrs
  {
    if addrs != [] {
      PublicIsPublic(addrs[1..], w);
    }
  }

  /** Filtering keeps every public address as often as it was there. */
  lemma {:induction false} PublicKeeps(addrs: seq<Addr>, w: World, a: Addr)
    requires !w.isPrivate(a.ip)
    ensures multiset(Public(addrs, w))[a] == multiset(addrs)[a]
  {
    if addrs != [] {
      PublicKeeps(addrs[1..], w, a);
      assert addrs == [addrs[0]] + addrs[1..];
    }
  }

  lemma FilterIsPublic(key: Key, addrs: seq<Addr>, c: Config, w: World)
    ensures var r := FilterPrivate(key, addrs, c, w); r.Ok? && Guarded(key, c) ==> AllPublic(r.value, w)
  {
    PublicIsPublic(addrs, w);
  }

  /** No googlevideo host is allowed private addresses. */
  ghost predicate Sealed(c: Config, w: World) {
    forall k | k in c.allowed :: !w.isGoogleVideo(k)
  }

  /** Keys for which the promise is kept. */
  ghost predicate Kept(key: Key, c: Config, w: World) {
    Guarded(key, c) && (w.isGoogleVideo(key) ==> Sealed(c, w))
  }

  ghost predicate PublicIps(ips: seq<Ip>, w: World) {
    forall i | 0 <= i < |ips| :: !w.isPrivate(ips[i])
  }

  ghost predicate CleanCache(s: State, w: World) {
    forall k | k in s.positive && Kept(k, s.config, w) :: AllPublic(s.positive[k].value, w)
  }

  ghost predicate CleanFallback(s: State, w: World) {
    s.config.blockPrivateIps && Sealed(s.config, w) && s.fallback.Some? ==> PublicIps(s.fallback.value.value, w)
  }

  lemma FallbackIsPublic(s: State, q: Query, w: World)
    requires CleanFallback(s, w) && Kept(q.key, s.config, w)
    ensures AllPublic(FallbackAddrs(s, q, w), w)
  {
  }

  lemma IpsArePublic(addrs: seq<Addr>, w: World)
    ensures AllPublic(addrs, w) <==> PublicIps(IpsOf(addrs), w)
  {
    if PublicIps(IpsOf(addrs), w) {
      assert forall i | 0 <= i < |addrs| :: IpsOf(addrs)[i] == addrs[i].ip;
    }
  }

  lemma ResultIsPublic(s: State, q: Query, w: World)
    requires CleanCache(s, w) && CleanFallback(s, w) && Kept(q.key, s.config, w)
    ensures var r := Resolve(s, q, w).result; r.Ok? ==> AllPublic(r.value, w)
  {
    hide FilterPrivate, RecordPositive, RecordNegative, AllPublic, FallbackAddrs;
    FilterIsPublic(q.key, if q.answer.Ok? then q.answer.value else [], s.config, w);
    FallbackIsPublic(s.(positive := s.positive - {q.key}, negative := s.negative - {q.key}), q, w);
    if q.literal.Some? {
      FilterIsPublic(q.key, [Addr(q.literal.value, q.key.port)], s.config, w);
    }
  }

  /** What one query can make of the fallback: nothing new, or the addresses it found and filtered. */
  lemma ResolveFillsFallback(s: State, q: Query, w: World)
    ensures var t := Resolve(s, q, w);
            || t.state.fallback.None? || t.state.fallback == s.fallback
            || (&& w.isGoogleVideo(q.key) && t.result.Ok?
                && t.state.fallback.value.value == IpsOf(t.result.value))
  {
    hide FilterPrivate, FallbackAddrs, Room, IpsOf;
  }

  lemma ResolveKeepsClean(s: State, q: Query, w: World)
    requires CleanCache(s, w) && CleanFallback(s, w)
    ensures CleanCache(Resolve(s, q, w).state, w) && CleanFallback(Resolve(s, q, w).state, w)
  {
    hide Resolve, AllPublic, PublicIps, IpsOf;
    var t := Resolve(s, q, w).state;
    ResolveKeepsConfig(s, q, w);
    ResolveFillsFallback(s, q, w);
    if Kept(q.key, s.config, w) {
      ResultIsPublic(s, q, w);
    }
    if Resolve(s, q, w).result.Ok? {
      IpsArePublic(Resolve(s, q, w).result.value, w);
    }
    forall k | k in t.positive && Kept(k, t.config, w) ensures AllPublic(t.positive[k].value, w) {
      ResolveStores(s, q, w, k);
    }
  }

  lemma ResolveKeepsConfig(s: State, q: Query, w: World)
    ensures Resolve(s, q, w).state.config == s.config
  {
    hide FilterPrivate, FallbackAddrs, Room;
  }

  lemma {:induction false} CachesStayClean(history: seq<Event>, start: Config, w: World)
    ensures CleanCache(Run(history, start, w), w) && CleanFallback(Run(history, start, w), w)
    decreases |history|
  {
    hide Resolve, AllPublic;
    if history != [] {
      CachesStayClean(history[..|history| - 1], start, w);
      if history[|history| - 1].Ask? {
        ResolveKeepsClean(Run(history[..|history| - 1], start, w), history[|history| - 1].query, w);
      }
    }
  }

  /**
   On every run, with private addresses blocked, a host that is not allow-listed is never
   resolved to a private address, from a cache, the fallback or a server, as long as it is
   not a googlevideo host or no googlevideo host is allow-listed.
   */
  lemma NoPrivateAddress(history: seq<Event>, start: Config, w: World, q: Query)
    requires Kept(q.key, Run(history, start, w).config, w)
    ensures var r := Resolve(Run(history, start, w), q, w).result; r.Ok? ==> AllPublic(r.value, w)
  {
    CachesStayClean(history, start, w);
    ResultIsPublic(Run(history, start, w), q, w);
  }

  /** No run under this configuration resolves this key to a private address. */
  ghost predicate NeverPrivate(key: Key, c: Config, w: World) {
    forall history: seq<Event>, q: Query | q.key == key :: ResolvesPublic(history, c, w, q)
  }

  ghost predicate ResolvesPublic(history: seq<Event>, c: Config, w: World, q: Query) {
    var s := Run(history, c, w);
    s.config == c && Resolve(s, q, w).result.Ok? ==> AllPublic(Resolve(s, q, w).result.value, w)
  }

  /**
   The condition is exact, and can be read off the configuration: where private addresses are
   blocked and exist at all, a key that is not allow-listed is safe on every run if and only
   if it is no googlevideo host or no googlevideo host is allow-listed.
   */
  lemma NeverPrivateExact(key: Key, c: Config, w: World, ip: Ip)
    requires Guarded(key, c) && w.isPrivate(ip)
    ensures NeverPrivate(key, c, w) <==> (w.isGoogleVideo(key) ==> Sealed(c, w))
  {
    hide Run, Resolve, AllPublic;
    if w.isGoogleVideo(key) ==> Sealed(c, w) {
      forall history: seq<Event>, q: Query | q.key == key ensures ResolvesPublic(history, c, w, q) {
        if Run(history, c, w).config == c {
          NoPrivateAddress(history, c, w, q);
        }
      }
    } else {
      var a :| a in c.allowed && w.isGoogleVideo(a);
      FallbackCrossesHosts(w, c, a, key, ip);
      var history, q := [Ask(Filling(a, ip))], Falling(key);
      assert Run(history, c, w).config == c && Resolve(Run(history, c, w), q, w).result == Ok([Addr(ip, key.port)]);
      assert !AllPublic([Addr(ip, key.port)], w) by { OnePrivate(ip, key.port, w); }
      assert !ResolvesPublic(history, c, w, q);
    }
  }

  lemma OnePrivate(ip: Ip, port: u16, w: World)
    requires w.isPrivate(ip)
    ensures !AllPublic([Addr(ip, port)], w)
  {
    assert w.isPrivate([Addr(ip, port)][0].ip);
  }

  /** A lookup that finds one address. */
  function Filling(key: Key, ip: Ip): Query {
    Query(key, None, Ok([Addr(ip, key.port)]), 0, 0, key, key)
  }

  /** A lookup that fails a second later. */
  function Falling(key: Key): Query {
    Query(key, None, Err(TimedOut), 1, 1, key, key)
  }

  /** An allow-listed googlevideo host fills the fallback for all the others. */
  lemma FallbackCrossesHosts(w: World, c: Config, a: Key, b: Key, ip: Ip)
    requires Guarded(b, c) && a in c.allowed && w.isGoogleVideo(a) && w.isGoogleVideo(b)
    ensures var s := Run([Ask(Filling(a, ip))], c, w);
            s.config == c && Resolve(s, Falling(b), w).result == Ok([Addr(ip, b.port)])
  {
    hide Room;
    assert [Ask(Filling(a, ip))][..0] == [];
    assert Run([], c, w) == Configured(c);
    var s := Run([Ask(Filling(a, ip))], c, w);
    var none: Cache<seq<Addr>> := map[];
    RoomShrinks(none, DNS_POSITIVE_CACHE_MAX_ENTRIES, 0, a);
    assert none - {a} == none;
    assert s.fallback == Some(Cached(30, [ip])) by {
      assert IpsOf([Addr(ip, a.port)]) == [ip];
    }
    assert WithPort([ip], b.port) == [Addr(ip, b.port)];
  }

  /**
   What one step does: a guarded googlevideo host with no live cache entry gets a private
   address if and only if its lookup failed and the live fallback holds one.
   */
  lemma GoogleVideoExact(s: State, q: Query, w: World)
    requires Guarded(q.key, s.config) && w.isGoogleVideo(q.key) && q.literal.None?
    requires !Live(s.positive, q.key, q.asked) && !Live(s.negative, q.key, q.asked)
    ensures (var r := Resolve(s, q, w).result; r.Ok? && !AllPublic(r.value, w))
       <==> (&& q.answer.Err? && s.fallback.Some? && q.answered < s.fallback.value.expiresAt
             && exists i | 0 <= i < |s.fallback.value.value| :: w.isPrivate(s.fallback.value.value[i]))
  {
    hide FilterPrivate, RecordPositive, RecordNegative;
    match q.answer
    case Ok(found) =>
      FilterIsPublic(q.key, found, s.config, w);
    case Err(e) =>
      var addrs := FallbackAddrs(s, q, w);
      if s.fallback.Some? && q.answered < s.fallback.value.expiresAt {
        var ips := s.fallback.value.value;
        assert forall i | 0 <= i < |ips| :: addrs[i].ip == ips[i];
      }
  }
}
