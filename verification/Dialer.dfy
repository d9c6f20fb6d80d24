/**
 Dialling a resolved target: Happy Eyeballs ordering of its addresses (section 4 of
 RFC 8305), then a race of at most four concurrent attempts. `connect` says how an attempt
 on an address ends; the order in which outstanding attempts end is arbitrary.
 */
module Dialer {
  import opened Wrappers
  import opened Bytes
  import opened Sets
  import opened Arith

  datatype SocketAddr = V4(ip: nat, port: u16) | V6(ip: nat, port: u16)

  // ---------- Happy Eyeballs ordering ----------

  /** The addresses of one family, in order. */
  function Only(addrs: seq<SocketAddr>, v4: bool): seq<SocketAddr> {
    if addrs == [] then []
    else (if addrs[0].V4? == v4 then [addrs[0]] else []) + Only(addrs[1..], v4)
  }

  lemma {:induction false} OnlyUnfolds(addrs: seq<SocketAddr>, v4: bool)
    requires addrs != []
    ensures Only(addrs, v4) == (if addrs[0].V4? == v4 then [addrs[0]] else []) + Only(addrs[1..], v4)
  {
  }

  lemma {:induction false} OnlyAppend(a: seq<SocketAddr>, b: seq<SocketAddr>, v4: bool)
    ensures Only(a + b, v4) == Only(a, v4) + Only(b, v4)
  {
    if a == [] {
      assert a + b == b;
    } else {
      assert (a + b)[1..] == a[1..] + b;
      OnlyAppend(a[1..], b, v4);
      OnlyUnfolds(a, v4);
      OnlyUnfolds(a + b, v4);
      hide Only;
      var first := if a[0].V4? == v4 then [a[0]] else [];
      assert first + (Only(a[1..], v4) + Only(b, v4)) == (first + Only(a[1..], v4)) + Only(b, v4);
    }
  }

  ghost predicate Family(addrs: seq<SocketAddr>, v4: bool) {
    forall i | 0 <= i < |addrs| :: addrs[i].V4? == v4
  }

  lemma {:induction false} OnlyIsFamily(addrs: seq<SocketAddr>, v4: bool)
    ensures Family(Only(addrs, v4), v4)
  {
    if addrs != [] {
      OnlyIsFamily(addrs[1..], v4);
    }
  }

  lemma {:induction false} OnlyOfFamily(addrs: seq<SocketAddr>, v4: bool)
    requires Family(addrs, v4)
    ensures Only(addrs, v4) == addrs && Only(addrs, !v4) == []
  {
    if addrs != [] {
      OnlyOfFamily(addrs[1..], v4);
    }
  }

  lemma {:induction false} OnlyPartitions(addrs: seq<SocketAddr>)
    ensures multiset(addrs) == multiset(Only(addrs, true)) + multiset(Only(addrs, false))
  {
    if addrs != [] {
      OnlyPartitions(addrs[1..]);
      assert addrs == [addrs[0]] + addrs[1..];
    }
  }

  lemma {:induction false} OnlyCounts(addrs: seq<SocketAddr>)
    ensures |addrs| == |Only(addrs, true)| + |Only(addrs, false)|
  {
    if addrs != [] {
      OnlyCounts(addrs[1..]);
    }
  }

  function NextTurn(turn4: bool, count: nat, k: nat): bool {
    if count + 1 == k then !turn4 else turn4
  }

  function NextCount(count: nat, k: nat): nat {
    if count + 1 == k then 0 else count + 1
  }

  /** Take turns of `k` while both families last, `count` into the present turn. */
  function Merge(v4: seq<SocketAddr>, v6: seq<SocketAddr>, turn4: bool, count: nat, k: nat)
    : seq<SocketAddr>
    decreases |v4| + |v6|
  {
    if v4 == [] || v6 == [] then v4 + v6
    else if turn4 then [v4[0]] + Merge(v4[1..], v6, NextTurn(turn4, count, k), NextCount(count, k), k)
    else [v6[0]] + Merge(v4, v6[1..], NextTurn(turn4, count, k), NextCount(count, k), k)
  }

  /** How many positions are filled while both families last. */
  function Contested(n4: nat, n6: nat, turn4: bool, count: nat, k: nat): nat
    decreases n4 + n6
  {
    if n4 == 0 || n6 == 0 then 0
    else if turn4 then 1 + Contested(n4 - 1, n6, NextTurn(turn4, count, k), NextCount(count, k), k)
    else 1 + Contested(n4, n6 - 1, NextTurn(turn4, count, k), NextCount(count, k), k)
  }

  function Ordered(addrs: seq<SocketAddr>, prioritizeIpv6: bool, interleave: nat): seq<SocketAddr> {
    var v4, v6 := Only(addrs, true), Only(addrs, false);
    if |addrs| <= 1 || v4 == [] || v6 == [] then addrs
    else Merge(v4, v6, !prioritizeIpv6, 0, if interleave == 0 then 1 else interleave)
  }

  method SplitFamilies(addrs: seq<SocketAddr>) returns (ipv4: seq<SocketAddr>, ipv6: seq<SocketAddr>)
    ensures ipv4 == Only(addrs, true) && ipv6 == Only(addrs, false)
  {
    ipv4, ipv6 := [], [];
    for i := 0 to |addrs|
      invariant ipv4 == Only(addrs[..i], true) && ipv6 == Only(addrs[..i], false)
    {
      assert addrs[..i + 1] == addrs[..i] + [addrs[i]];
      OnlyAppend(addrs[..i], [addrs[i]], true);
      OnlyAppend(addrs[..i], [addrs[i]], false);
      if addrs[i].V4? {
        ipv4 := ipv4 + [addrs[i]];
      } else {
        ipv6 := ipv6 + [addrs[i]];
      }
    }
    assert addrs[..|addrs|] == addrs;
  }

  method Interleave(ipv4: seq<SocketAddr>, ipv6: seq<SocketAddr>, ipv4First: bool, k: nat)
    returns (ordered: seq<SocketAddr>)
    requires k >= 1
    ensures ordered == Merge(ipv4, ipv6, ipv4First, 0, k)
  {
    ordered := [];
    var i4: nat, i6: nat, turnCount: nat, ipv4Turn := 0, 0, 0, ipv4First;
    while i4 < |ipv4| && i6 < |ipv6|
      invariant i4 <= |ipv4| && i6 <= |ipv6| && turnCount < k
      invariant ordered + Merge(ipv4[i4..], ipv6[i6..], ipv4Turn, turnCount, k)
             == Merge(ipv4, ipv6, ipv4First, 0, k)
      decreases |ipv4| + |ipv6| - i4 - i6
    {
      ghost var rest := Merge(if ipv4Turn then ipv4[i4 + 1..] else ipv4[i4..],
                              if ipv4Turn then ipv6[i6..] else ipv6[i6 + 1..],
                              NextTurn(ipv4Turn, turnCount, k), NextCount(turnCount, k), k);
      if ipv4Turn {
        assert ipv4[i4..][1..] == ipv4[i4 + 1..];
        assert ordered + ([ipv4[i4]] + rest) == (ordered + [ipv4[i4]]) + rest;
        ordered := ordered + [ipv4[i4]];
        i4 := i4 + 1;
      } else {
        assert ipv6[i6..][1..] == ipv6[i6 + 1..];
        assert ordered + ([ipv6[i6]] + rest) == (ordered + [ipv6[i6]]) + rest;
        ordered := ordered + [ipv6[i6]];
        i6 := i6 + 1;
      }
      turnCount := turnCount + 1;
      if turnCount == k {
        ipv4Turn := !ipv4Turn;
        turnCount := 0;
      }
    }
    ordered := ordered + ipv4[i4..];
    ordered := ordered + ipv6[i6..];
  }

  method HappyEyeballsOrder(addrs: seq<SocketAddr>, prioritizeIpv6: bool, interleave: nat)
    returns (ordered: seq<SocketAddr>)
    ensures ordered == Ordered(addrs, prioritizeIpv6, interleave)
  {
    if |addrs| <= 1 {
      return addrs;
    }
    var ipv4, ipv6 := SplitFamilies(addrs);
    if ipv4 == [] || ipv6 == [] {
      return addrs;
    }
    ordered := Interleave(ipv4, ipv6, !prioritizeIpv6, if interleave == 0 then 1 else interleave);
  }

  lemma {:induction false} MergeKeepsFamilies(v4: seq<SocketAddr>, v6: seq<SocketAddr>, turn4: bool,
                                              count: nat, k: nat)
    requires Family(v4, true) && Family(v6, false)
    ensures var m := Merge(v4, v6, turn4, count, k); Only(m, true) == v4 && Only(m, false) == v6
    decreases |v4| + |v6|
  {
    if v4 == [] || v6 == [] {
      OnlyAppend(v4, v6, true);
      OnlyAppend(v4, v6, false);
      OnlyOfFamily(v4, true);
      OnlyOfFamily(v6, false);
    } else if turn4 {
      MergeKeepsFamilies(v4[1..], v6, NextTurn(turn4, count, k), NextCount(count, k), k);
    } else {
      MergeKeepsFamilies(v4, v6[1..], NextTurn(turn4, count, k), NextCount(count, k), k);
    }
  }

  /** Nothing is lost or repeated, and each family keeps its own order. */
  lemma OrderedIsPermutation(addrs: seq<SocketAddr>, prioritizeIpv6: bool, interleave: nat)
    ensures var o := Ordered(addrs, prioritizeIpv6, interleave);
            && Only(o, true) == Only(addrs, true) && Only(o, false) == Only(addrs, false)
            && multiset(o) == multiset(addrs)
  {
    hide Only, Family, Merge;
    OnlyIsFamily(addrs, true);
    OnlyIsFamily(addrs, false);
    MergeKeepsFamilies(Only(addrs, true), Only(addrs, false), !prioritizeIpv6, 0,
                       if interleave == 0 then 1 else interleave);
    OnlyPartitions(addrs);
    OnlyPartitions(Ordered(addrs, prioritizeIpv6, interleave));
  }

  /** Position i of a run that is `count` into its first block of k. */
  ghost predicate InFirstFamily(i: nat, count: nat, k: nat)
    requires k > 0
  {
    (count + i) / k % 2 == 0
  }

  lemma BlockStart(count: nat, k: nat)
    requires count < k
    ensures InFirstFamily(0, count, k)
  {
    DivUnique(count, k, 0, count);
  }

  lemma BlockStep(i: nat, count: nat, k: nat, turn4: bool)
    requires count < k && i > 0
    ensures (turn4 == InFirstFamily(i, count, k))
         == (NextTurn(turn4, count, k) == InFirstFamily(i - 1, NextCount(count, k), k))
  {
    if count + 1 == k {
      NextBlock(i - 1, k);
      assert count + i == i - 1 + k;
    } else {
      assert count + i == NextCount(count, k) + (i - 1);
    }
  }

  lemma NextBlock(x: int, k: int)
    requires k > 0
    ensures (x + k) / k % 2 != x / k % 2
  {
    DivAdd(x, 1, k);
  }

  /** Blocks of k alternate while both families last; after that one family remains. */
  lemma {:induction false} MergeAlternates(v4: seq<SocketAddr>, v6: seq<SocketAddr>, turn4: bool,
                                           count: nat, k: nat, i: nat)
    requires Family(v4, true) && Family(v6, false) && count < k
    requires i < |v4| + |v6|
    ensures |Merge(v4, v6, turn4, count, k)| == |v4| + |v6|
    ensures var cut := Contested(|v4|, |v6|, turn4, count, k);
            var m := Merge(v4, v6, turn4, count, k);
            && cut <= |m|
            && (i < cut ==> m[i].V4? == (turn4 == InFirstFamily(i, count, k)))
            && (i >= cut ==> m[i].V4? == m[|m| - 1].V4?)
    decreases |v4| + |v6|
  {
    hide InFirstFamily, Merge, Contested;
    if v4 == [] || v6 == [] {
      MergeRest(v4, v6, turn4, count, k, i);
    } else {
      var v4', v6' := if turn4 then v4[1..] else v4, if turn4 then v6 else v6[1..];
      var turn, c := NextTurn(turn4, count, k), NextCount(count, k);
      var m, rest := Merge(v4, v6, turn4, count, k), Merge(v4', v6', turn, c, k);
      MergeUnfolds(v4, v6, turn4, count, k);
      BlockStart(count, k);
      MergeAlternates(v4', v6', turn, c, k, if i > 0 then i - 1 else 0);
      if i > 0 {
        BlockStep(i, count, k, turn4);
        assert m[i] == rest[i - 1];
      }
      assert m[|m| - 1] == rest[|rest| - 1];
    }
  }

  lemma {:induction false} MergeUnfolds(v4: seq<SocketAddr>, v6: seq<SocketAddr>, turn4: bool, count: nat, k: nat)
    requires v4 != [] && v6 != []
    ensures var v4', v6' := if turn4 then v4[1..] else v4, if turn4 then v6 else v6[1..];
            var turn, c := NextTurn(turn4, count, k), NextCount(count, k);
            && Merge(v4, v6, turn4, count, k)
               == [if turn4 then v4[0] else v6[0]] + Merge(v4', v6', turn, c, k)
            && Contested(|v4|, |v6|, turn4, count, k) == 1 + Contested(|v4'|, |v6'|, turn, c, k)
  {
  }

  lemma MergeRest(v4: seq<SocketAddr>, v6: seq<SocketAddr>, turn4: bool, count: nat, k: nat, i: nat)
    requires Family(v4, true) && Family(v6, false) && (v4 == [] || v6 == []) && i < |v4| + |v6|
    ensures Contested(|v4|, |v6|, turn4, count, k) == 0
    ensures var m := Merge(v4, v6, turn4, count, k);
            |m| == |v4| + |v6| && m[i].V4? == m[|m| - 1].V4?
  {
  }

  /** With turns of one, how far strict alternation reaches. */
  function Reach(n4: nat, n6: nat, turn4: bool): nat {
    var mine, other := if turn4 then n4 else n6, if turn4 then n6 else n4;
    if mine <= other then 2 * mine else 2 * other + 1
  }

  lemma {:induction false} MergeAlternatesStrictly(v4: seq<SocketAddr>, v6: seq<SocketAddr>, turn4: bool, i: nat)
    requires Family(v4, true) && Family(v6, false) && i < Reach(|v4|, |v6|, turn4)
    ensures i < |Merge(v4, v6, turn4, 0, 1)|
    ensures Merge(v4, v6, turn4, 0, 1)[i].V4? == (turn4 == (i % 2 == 0))
    decreases |v4| + |v6|
  {
    if v4 != [] && v6 != [] && i > 0 {
      MergeAlternatesStrictly(if turn4 then v4[1..] else v4, if turn4 then v6 else v6[1..], !turn4, i - 1);
    }
  }

  /** The order the dialler uses: the preferred family first, strictly alternating. */
  lemma OrderedAlternates(addrs: seq<SocketAddr>, prioritizeIpv6: bool, i: nat)
    requires i < 2 * |Only(addrs, true)| && i < 2 * |Only(addrs, false)|
    ensures i < |Ordered(addrs, prioritizeIpv6, 1)|
    ensures Ordered(addrs, prioritizeIpv6, 1)[i].V4? == (!prioritizeIpv6 == (i % 2 == 0))
  {
    hide Only, Family, Merge;
    OnlyIsFamily(addrs, true);
    OnlyIsFamily(addrs, false);
    OnlyCounts(addrs);
    MergeAlternatesStrictly(Only(addrs, true), Only(addrs, false), !prioritizeIpv6, i);
  }

  lemma {:induction false} NoneIsOther(addrs: seq<SocketAddr>, v4: bool)
    requires Only(addrs, v4) == []
    ensures Family(addrs, !v4)
  {
    if addrs != [] {
      NoneIsOther(addrs[1..], v4);
      assert forall i | 1 <= i < |addrs| :: addrs[i] == addrs[1..][i - 1];
    }
  }

  /**
   For any interleave and any addresses: blocks of that size alternate, the preferred family
   first, until one family runs out; after that only the other remains.
   */
  lemma OrderedAlternatesInBlocks(addrs: seq<SocketAddr>, prioritizeIpv6: bool, interleave: nat, i: nat)
    requires i < |addrs|
    ensures var k := if interleave == 0 then 1 else interleave;
            var cut := Contested(|Only(addrs, true)|, |Only(addrs, false)|, !prioritizeIpv6, 0, k);
            var o := Ordered(addrs, prioritizeIpv6, interleave);
            && |o| == |addrs| && cut <= |o|
            && (i < cut ==> o[i].V4? == (!prioritizeIpv6 == InFirstFamily(i, 0, k)))
            && (i >= cut ==> o[i].V4? == o[|o| - 1].V4?)
  {
    hide Only, Family, Merge, InFirstFamily;
    var v4, v6 := Only(addrs, true), Only(addrs, false);
    OnlyIsFamily(addrs, true);
    OnlyIsFamily(addrs, false);
    OnlyCounts(addrs);
    if v4 == [] {
      NoneIsOther(addrs, true);
      OneFamily(addrs, false, i);
    } else if v6 == [] {
      NoneIsOther(addrs, false);
      OneFamily(addrs, true, i);
    } else {
      hide Contested;
      MergeAlternates(v4, v6, !prioritizeIpv6, 0, if interleave == 0 then 1 else interleave, i);
    }
  }

  lemma OneFamily(addrs: seq<SocketAddr>, v4: bool, i: nat)
    requires Family(addrs, v4) && i < |addrs|
    ensures addrs[i].V4? == addrs[|addrs| - 1].V4?
  {
  }

  // ---------- Sequential connect ----------

  datatype DialError =
    | AttemptFailed(kind: ErrorKind)  // the error of one attempt
    | DeadlinePassed
    | NoAddress

  type Attempt = Result<nat, ErrorKind>

  /** The first success; failing that, the last error. */
  function Sequential(outcomes: seq<Attempt>, last: Option<ErrorKind>): Result<nat, DialError> {
    if outcomes == [] then Err(if last.Some? then AttemptFailed(last.value) else NoAddress)
    else
      match outcomes[0]
      case Ok(stream) => Ok(stream)
      case Err(e) => Sequential(outcomes[1..], Some(e))
  }

  method ConnectSequential(outcomes: seq<Attempt>) returns (r: Result<nat, DialError>)
    ensures r == Sequential(outcomes, None)
  {
    var lastError: Option<ErrorKind> := None;
    for i := 0 to |outcomes|
      invariant Sequential(outcomes[i..], lastError) == Sequential(outcomes, None)
    {
      assert outcomes[i..][1..] == outcomes[i + 1..];
      match outcomes[i]
      case Ok(stream) => return Ok(stream);
      case Err(e) => lastError := Some(e);
    }
    return Err(if lastError.Some? then AttemptFailed(lastError.value) else NoAddress);
  }

  ghost predicate SomeConnects(outcomes: seq<Attempt>) {
    exists i | 0 <= i < |outcomes| :: outcomes[i].Ok?
  }

  lemma {:induction false} SequentialExact(outcomes: seq<Attempt>, last: Option<ErrorKind>)
    ensures Sequential(outcomes, last).Ok? <==> SomeConnects(outcomes)
    ensures Sequential(outcomes, last).Ok? ==> Ok(Sequential(outcomes, last).value) in outcomes
    ensures Sequential(outcomes, last) == Err(NoAddress) <==> outcomes == [] && last.None?
  {
    if outcomes != [] && outcomes[0].Err? {
      SequentialExact(outcomes[1..], Some(outcomes[0].error));
      assert forall i | 0 < i < |outcomes| :: outcomes[i] == outcomes[1..][i - 1];
    }
  }

  // ---------- The race ----------

  const TCP_RACE_MAX_CONCURRENT: nat := 4

  /** `started` are the attempts begun so far, in the order they were begun. */
  datatype Race = Race(started: seq<nat>, outstanding: set<nat>, failed: set<nat>)

  /** Begin attempts in address order while fewer than four are outstanding. */
  function Spawn(n: nat, s: Race): Race
    decreases n - |s.started|
  {
    if |s.started| < n && |s.outstanding| < TCP_RACE_MAX_CONCURRENT then Spawn(n, Start(s)) else s
  }

  datatype Verdict = Running(race: Race) | Done(result: Result<nat, DialError>)

  /** Attempt i is the next to end. */
  function Complete(outcomes: seq<Attempt>, s: Race, i: nat): Verdict
    requires i < |outcomes|
  {
    match outcomes[i]
    case Ok(stream) => Done(Ok(stream))
    case Err(e) =>
      var t := Spawn(|outcomes|, Race(s.started, s.outstanding - {i}, s.failed + {i}));
      if t.outstanding == {} && |t.started| >= |outcomes| then Done(Err(AttemptFailed(e))) else Running(t)
  }

  function Range(n: nat): (r: set<nat>)
    ensures |r| == n
    ensures forall i: nat :: i in r <==> i < n
  {
    if n == 0 then {} else Range(n - 1) + {n - 1}
  }

  /** Attempts started in order and once each, each outstanding or failed, at most four at a time. */
  ghost predicate RaceInv(n: nat, s: Race) {
    && |s.started| <= n
    && (forall i | 0 <= i < |s.started| :: s.started[i] == i)
    && s.outstanding + s.failed == Range(|s.started|)
    && s.outstanding !! s.failed
    && |s.outstanding| <= TCP_RACE_MAX_CONCURRENT
  }

  /** The next attempt, in address order, is begun. */
  function Start(s: Race): Race {
    Race(s.started + [|s.started|], s.outstanding + {|s.started|}, s.failed)
  }

  lemma StartKeepsInv(n: nat, s: Race)
    requires RaceInv(n, s) && |s.started| < n && |s.outstanding| < TCP_RACE_MAX_CONCURRENT
    ensures RaceInv(n, Start(s)) && |Start(s).outstanding| == |s.outstanding| + 1
  {
    var next := |s.started|;
    assert next !in s.outstanding + s.failed;
    assert s.outstanding + {next} + s.failed == Range(next + 1);
  }

  lemma {:induction false} SpawnKeepsInv(n: nat, s: Race)
    requires RaceInv(n, s)
    ensures RaceInv(n, Spawn(n, s))
    ensures Spawn(n, s).failed == s.failed && s.started <= Spawn(n, s).started
    ensures |Spawn(n, s).started| == n || |Spawn(n, s).outstanding| == TCP_RACE_MAX_CONCURRENT
    decreases n - |s.started|
  {
    if |s.started| < n && |s.outstanding| < TCP_RACE_MAX_CONCURRENT {
      StartKeepsInv(n, s);
      hide RaceInv;
      SpawnKeepsInv(n, Start(s));
    }
  }

  method SpawnTcpRaceAttempts(n: nat, s: Race, next: nat, active: nat)
    returns (t: Race, next': nat, active': nat)
    requires RaceInv(n, s) && next == |s.started| && active == |s.outstanding|
    ensures t == Spawn(n, s) && next' == |t.started| && active' == |t.outstanding|
  {
    hide RaceInv;
    t, next', active' := s, next, active;
    while next' < n && active' < TCP_RACE_MAX_CONCURRENT
      invariant RaceInv(n, t) && next' == |t.started| && active' == |t.outstanding|
      invariant Spawn(n, t) == Spawn(n, s)
      decreases n - next'
    {
      StartKeepsInv(n, t);
      t := Start(t);
      next' := next' + 1;
      active' := active' + 1;
    }
  }

  lemma RaceIsNew(n: nat)
    ensures RaceInv(n, Race([], {}, {}))
  {
  }

  lemma HeadKeepsInv(outcomes: seq<Attempt>, s: Race)
    requires AtHead(outcomes, s)
    ensures RaceInv(|outcomes|, s) && s.outstanding != {}
  {
  }

  lemma EndKeepsInv(n: nat, s: Race, i: nat)
    requires RaceInv(n, s) && i in s.outstanding
    ensures RaceInv(n, Race(s.started, s.outstanding - {i}, s.failed + {i}))
  {
    assert s.outstanding - {i} + (s.failed + {i}) == s.outstanding + s.failed;
  }

  /** What holds at the head of the race's loop. */
  ghost predicate AtHead(outcomes: seq<Attempt>, s: Race) {
    && RaceInv(|outcomes|, s)
    && s.outstanding != {}
    && forall i | i in s.failed :: i < |outcomes| && outcomes[i].Err?
  }

  /** When everything was started and nothing is outstanding, everything failed. */
  lemma AllFailed(outcomes: seq<Attempt>, t: Race)
    requires RaceInv(|outcomes|, t) && t.outstanding == {} && |t.started| >= |outcomes|
    requires forall i | i in t.failed :: i < |outcomes| && outcomes[i].Err?
    ensures !SomeConnects(outcomes)
  {
    forall j | 0 <= j < |outcomes| ensures outcomes[j].Err? {
      assert j in t.outstanding + t.failed;
    }
  }

  lemma RaceStarts(outcomes: seq<Attempt>)
    requires outcomes != []
    ensures AtHead(outcomes, Spawn(|outcomes|, Race([], {}, {})))
    ensures Spawn(|outcomes|, Race([], {}, {})).failed == {}
  {
    var s := Spawn(|outcomes|, Race([], {}, {}));
    SpawnKeepsInv(|outcomes|, Race([], {}, {}));
    assert 0 in s.outstanding + s.failed;
  }

  lemma CompleteKeepsHead(outcomes: seq<Attempt>, s: Race, i: nat)
    requires AtHead(outcomes, s) && i in s.outstanding
    ensures i < |outcomes|
    ensures match Complete(outcomes, s, i)
            case Running(t) => AtHead(outcomes, t) && |t.failed| == |s.failed| + 1
            case Done(Ok(stream)) => outcomes[i] == Ok(stream) && SomeConnects(outcomes)
            case Done(Err(e)) =>
              e.AttemptFailed? && outcomes[i] == Err(e.kind) && !SomeConnects(outcomes)
  {
    assert i in s.outstanding + s.failed;
    if outcomes[i].Err? {
      var mid := Race(s.started, s.outstanding - {i}, s.failed + {i});
      EndKeepsInv(|outcomes|, s, i);
      SpawnKeepsInv(|outcomes|, mid);
      var t := Spawn(|outcomes|, mid);
      if t.outstanding == {} && |t.started| >= |outcomes| {
        AllFailed(outcomes, t);
      }
    }
  }

  /** A schedule names, one after another, the outstanding attempt that ends next. */
  function RaceRun(outcomes: seq<Attempt>, v: Verdict, schedule: seq<nat>): Verdict
    decreases |schedule|
  {
    if schedule == [] || v.Done? then v
    else if schedule[0] in v.race.outstanding && schedule[0] < |outcomes| then
      RaceRun(outcomes, Complete(outcomes, v.race, schedule[0]), schedule[1..])
    else v
  }

  /**
   Over every schedule the race keeps its bounds and always has an attempt outstanding; it
   ends with a success only if an address connects, and with an attempt's error only after
   every address was tried and failed.
   */
  lemma {:induction false} RaceIsSafe(outcomes: seq<Attempt>, v: Verdict, schedule: seq<nat>)
    requires v.Running? ==> AtHead(outcomes, v.race)
    requires v.Done? ==> (v.result.Ok? <==> SomeConnects(outcomes))
    ensures match RaceRun(outcomes, v, schedule)
            case Running(t) => AtHead(outcomes, t)
            case Done(r) => r.Ok? <==> SomeConnects(outcomes)
    decreases |schedule|
  {
    hide AtHead, Complete, SomeConnects;
    if schedule != [] && v.Running? && schedule[0] in v.race.outstanding {
      CompleteKeepsHead(outcomes, v.race, schedule[0]);
      RaceIsSafe(outcomes, Complete(outcomes, v.race, schedule[0]), schedule[1..]);
    }
  }

  lemma FailedFit(outcomes: seq<Attempt>, s: Race)
    requires AtHead(outcomes, s)
    ensures |s.failed| < |outcomes|
  {
    var all := Range(|outcomes|);
    var some :| some in s.outstanding;
    assert some in s.outstanding + s.failed && some in all && some !in s.failed;
    assert forall i | i in s.failed :: i in s.outstanding + s.failed;
    assert s.failed <= all - {some};
    SubsetSize(s.failed, all - {some});
  }

  /**
   The race. `receives` is how many attempts end before the deadline; which outstanding
   attempt ends next is arbitrary. With a deadline that is late enough the race succeeds
   exactly when sequential connect would.
   */
  method ConnectRace(outcomes: seq<Attempt>, receives: nat) returns (r: Result<nat, DialError>)
    ensures r.Ok? ==> Ok(r.value) in outcomes
    ensures r.Err? && r.error.AttemptFailed? ==> !SomeConnects(outcomes) && Err(r.error.kind) in outcomes
    ensures r == Err(DeadlinePassed) ==> outcomes == [] || receives < |outcomes|
    ensures outcomes != [] && receives >= |outcomes| ==> (r.Ok? <==> Sequential(outcomes, None).Ok?)
    ensures r != Err(NoAddress)
  {
    hide AtHead, SomeConnects, RaceInv, Spawn, Sequential;
    SequentialExact(outcomes, None);
    RaceIsNew(|outcomes|);
    var n := |outcomes|;
    var s, next, active := SpawnTcpRaceAttempts(n, Race([], {}, {}), 0, 0);
    if outcomes == [] {
      // No attempt will ever answer: the receiver waits until the deadline.
      return Err(DeadlinePassed);
    }
    RaceStarts(outcomes);
    var left := receives;
    while left > 0
      invariant AtHead(outcomes, s) && left + |s.failed| == receives
      invariant next == |s.started| && active == |s.outstanding|
      decreases left
    {
      HeadKeepsInv(outcomes, s);
      var i :| i in s.outstanding;
      CompleteKeepsHead(outcomes, s, i);
      assert outcomes[i] in outcomes;
      if outcomes[i].Ok? {
        return Ok(outcomes[i].value);
      }
      EndKeepsInv(n, s, i);
      active := active - 1;
      s, next, active := SpawnTcpRaceAttempts(n, Race(s.started, s.outstanding - {i}, s.failed + {i}), next, active);
      if active == 0 && next >= n {
        return Err(AttemptFailed(outcomes[i].error));
      }
      left := left - 1;
    }
    FailedFit(outcomes, s);
    return Err(DeadlinePassed);
  }

  // ---------- Ordering and racing together ----------

  function Outcomes(addrs: seq<SocketAddr>, connect: SocketAddr -> Attempt): seq<Attempt> {
    seq(|addrs|, i requires 0 <= i < |addrs| => connect(addrs[i]))
  }

  /**
   Dialling succeeds exactly when some resolved address accepts, if the deadline leaves
   time for every attempt, and then it returns the stream of one of them.
   */
  method ConnectTcpAddrs(addrs: seq<SocketAddr>, prefersIpv6: bool, connect: SocketAddr -> Attempt,
                         receives: nat)
    returns (r: Result<nat, DialError>)
    ensures r.Ok? ==> exists a :: a in addrs && connect(a) == Ok(r.value)
    ensures receives >= |addrs| ==> (r.Ok? <==> exists a :: a in addrs && connect(a).Ok?)
    ensures r == Err(NoAddress) <==> addrs == []
  {
    var ordered := HappyEyeballsOrder(addrs, prefersIpv6, 1);
    OrderedIsPermutation(addrs, prefersIpv6, 1);
    assert |ordered| == |multiset(ordered)| == |addrs|;
    var outcomes := Outcomes(ordered, connect);
    SequentialExact(outcomes, None);
    if |ordered| <= 1 {
      r := ConnectSequential(outcomes);
    } else {
      r := ConnectRace(outcomes, receives);
    }
    forall i | 0 <= i < |ordered| ensures ordered[i] in addrs && outcomes[i] == connect(ordered[i]) {
      assert ordered[i] in multiset(ordered);
    }
    forall a | a in addrs ensures a in ordered {
      assert a in multiset(addrs);
    }
  }
}
