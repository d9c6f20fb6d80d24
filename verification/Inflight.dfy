/** The per-target cap on concurrent connects: a table of counts kept in step with guards. */
module Inflight {
  import opened Wrappers
  import opened DnsKey

  const TCP_CONNECT_INFLIGHT_PER_TARGET_LIMIT: nat := 64

  type Table = map<Key, nat>

  function Count(t: Table, key: Key): nat {
    if key in t then t[key] else 0
  }

  datatype Event = Acquire(key: Key) | Drop(key: Key)

  /** The table and the guards that exist. */
  datatype State = State(table: Table, guards: multiset<Key>)

  function Step(s: State, ev: Event): State {
    match ev
    case Acquire(key) =>
      var n := Count(s.table, key);
      if n >= TCP_CONNECT_INFLIGHT_PER_TARGET_LIMIT then State(s.table[key := n], s.guards)
      else State(s.table[key := n + 1], s.guards + multiset{key})
    case Drop(key) =>
      var guards := s.guards - multiset{key};
      if key !in s.table then State(s.table, guards)
      else
        var n := if s.table[key] > 0 then s.table[key] - 1 else 0;
        State(if n == 0 then s.table - {key} else s.table[key := n], guards)
  }

  class TcpConnectInflight {
    var active: Table
    ghost var guards: multiset<Key>

    constructor ()
      ensures State(active, guards) == State(map[], multiset{})
    {
      active := map[];
      guards := multiset{};
    }

    /** A guard, or TimedOut when the target already has its share of attempts. */
    method Guard(key: Key) returns (r: Result<Key, ErrorKind>)
      modifies this
      ensures State(active, guards) == Step(old(State(active, guards)), Acquire(key))
      ensures r == if Count(old(active), key) >= TCP_CONNECT_INFLIGHT_PER_TARGET_LIMIT
                   then Err(TimedOut) else Ok(key)
    {
      if key !in active {
        active := active[key := 0];
      }
      if active[key] >= TCP_CONNECT_INFLIGHT_PER_TARGET_LIMIT {
        return Err(TimedOut);
      }
      active := active[key := active[key] + 1];
      guards := guards + multiset{key};
      return Ok(key);
    }

    method DropGuard(key: Key)
      modifies this
      ensures State(active, guards) == Step(old(State(active, guards)), Drop(key))
    {
      guards := guards - multiset{key};
      if key !in active {
        return;
      }
      var count := if active[key] > 0 then active[key] - 1 else 0;
      active := active[key := count];
      if count == 0 {
        active := active - {key};
      }
    }
  }

  function Run(history: seq<Event>): State {
    if history == [] then State(map[], multiset{})
    else Step(Run(history[..|history| - 1]), history[|history| - 1])
  }

  /** Only a guard that exists can be dropped. */
  ghost predicate Owned(history: seq<Event>) {
    history == [] ||
    var front, last := history[..|history| - 1], history[|history| - 1];
    Owned(front) && (last.Drop? ==> last.key in Run(front).guards)
  }

  ghost predicate InStep(s: State, key: Key) {
    && (key in s.table <==> key in s.guards)
    && Count(s.table, key) == s.guards[key] <= TCP_CONNECT_INFLIGHT_PER_TARGET_LIMIT
  }

  /**
   Over every interleaving of acquires, rejections and drops, a target's count is the number
   of its guards, between 1 and 64 when stored, and absent exactly when it has none.
   */
  lemma {:induction false} CountsAreGuards(history: seq<Event>, key: Key)
    requires Owned(history)
    ensures InStep(Run(history), key)
    decreases |history|
  {
    if history != [] {
      CountsAreGuards(history[..|history| - 1], key);
    }
  }

  /** So a connect is refused exactly when 64 guards for its target exist. */
  lemma RefusedExactlyAtLimit(history: seq<Event>, key: Key)
    requires Owned(history)
    ensures Run(history + [Acquire(key)]).guards == Run(history).guards
       <==> Run(history).guards[key] == TCP_CONNECT_INFLIGHT_PER_TARGET_LIMIT
  {
    var next := history + [Acquire(key)];
    assert next[..|next| - 1] == history;
    CountsAreGuards(history, key);
    var s := Run(history);
    assert (s.guards + multiset{key})[key] == s.guards[key] + 1;
  }
}
