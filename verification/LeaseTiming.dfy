/**
 How many failing keep-alive rounds a key survives. Every round of an instance takes at most `d` from the
 moment it is due; between two confirmed rounds there are at most `K` failing ones. The key is safe exactly
 when the pauses and delays add up to less than the lease time to live.
 */
module LeaseTiming {
  import opened Etcd
  import opened Election
  import opened ServiceState
  import opened Registry
  import opened LeaseInvariant
  import opened Leadership

  /** The longest a key confirmed by a round that became due at 0 can wait for its next confirmation. */
  function WorstWait(K: nat, d: nat): nat {
    KEEP_ALIVE_INTERVAL + K * ERR_SLEEP + (K + 2) * d
  }

  /** The pauses and delays of `K` failing rounds fit in a lease. */
  predicate Safe(K: nat, d: nat) {
    WorstWait(K, d) < GRANT_LEASE_TTL
  }

  /** A round of instance `i` ends confirmed. */
  predicate Confirms(x: Label, i: nat) {
    (x.LoopPut? || x.LoopRenew?) && x.i == i && x.ok
  }

  /** A round of instance `i` ends without confirmation. */
  ghost predicate Fails(cfg: Cluster, s: System, x: Label, i: nat)
    requires i < |cfg|
  {
    match x
    case LoopGrant(j, g, _) => j == i && g.GrantFailed?
    case LoopPut(j, ok, _) => j == i && !ok
    case LoopCheck(j, ok) => j == i && !(ok && KeyOf(cfg[i]) in Current(s.log))
    case LoopRenew(j, ok, _, _) => j == i && !ok
    case _ => false
  }

  /** The number of failing rounds of `i` since its last confirmed one. */
  ghost function Streak(cfg: Cluster, s: System, x: Label, i: nat, fails: nat): nat
    requires i < |cfg|
  {
    if Confirms(x, i) then 0 else if Fails(cfg, s, x, i) then fails + 1 else fails
  }

  /** Round latency: a round due at `wakeAt` has ended by `wakeAt + d`. */
  predicate OnTime(s: System, i: nat, d: nat)
    requires i < |s.nodes|
  {
    s.now <= s.nodes[i].wakeAt + d
  }

  /** Throughout the run instance `i` is on time, never fails more than `K` rounds in a row, and is not shut down. */
  ghost predicate Steady(cfg: Cluster, s: System, run: seq<Label>, i: nat, K: nat, d: nat, fails: nat)
    requires |s.nodes| == |cfg| && i < |cfg|
    decreases |run|
  {
    && OnTime(s, i, d) && fails <= K
    && (run != [] ==>
          && run[0] != Cancel(i)
          && Steady(cfg, Step(cfg, s, run[0]), run[1..], i, K, d, Streak(cfg, s, run[0], i, fails)))
  }

  /** Since a round due at `since` confirmed it, the key of `i` has kept create revision `cr`; the lease it is
      bound to lasts a full time to live from `since`. */
  ghost predicate Held(cfg: Cluster, s: System, i: nat, cr: nat, since: nat, fails: nat, d: nat)
    requires i < |cfg| == |s.nodes|
  {
    var n, k, now := s.nodes[i], KeyOf(cfg[i]), Current(s.log);
    && n.shutdown == Serving && n.pc in {AtLoop, Renewing} + (if n.pc.LoopPutting? then {n.pc} else {})
    && k in now && now[k].createRev == cr
    && now[k].lease in s.leases && s.leases[now[k].lease].deadline >= since + GRANT_LEASE_TTL
    && since <= n.wakeAt <= since + d + KEEP_ALIVE_INTERVAL + fails * (ERR_SLEEP + d)
  }

  lemma WaitIsBounded(K: nat, d: nat, fails: nat)
    requires fails <= K
    ensures d + KEEP_ALIVE_INTERVAL + fails * (ERR_SLEEP + d) + d <= WorstWait(K, d)
  {
    assert fails * (ERR_SLEEP + d) <= K * (ERR_SLEEP + d) == K * ERR_SLEEP + K * d;
  }

  /** While a safe key is held its lease cannot have run out. */
  lemma HeldLeaseIsInTime(cfg: Cluster, s: System, i: nat, cr: nat, since: nat, fails: nat, K: nat, d: nat)
    requires i < |cfg| == |s.nodes| && Held(cfg, s, i, cr, since, fails, d)
    requires OnTime(s, i, d) && fails <= K && Safe(K, d)
    ensures s.now < since + GRANT_LEASE_TTL
  {
    WaitIsBounded(K, d, fails);
  }

  /** Steps of others, and of the environment, leave a held key held. */
  lemma OthersKeepHeld(cfg: Cluster, s: System, x: Label, i: nat, cr: nat, since: nat, fails: nat, d: nat)
    requires ValidCluster(cfg) && Inv(cfg, s) && Enabled(cfg, s, x) && i < |cfg| && !Actor(x, i)
    requires Held(cfg, s, i, cr, since, fails, d) && s.now < since + GRANT_LEASE_TTL
    ensures Held(cfg, Step(cfg, s, x), i, cr, since, fails, d)
  {
    assert NodeInv(cfg[i], s, i);
    if x.Expire? {
      Append(s.log, Delete(x.keys));
    } else if !x.Tick? {
      OthersUndisturbed(cfg, s, x, i);
    }
  }

  /** A failing or unfinished round of the instance itself leaves its key held; a confirmed one renews the hold. */
  lemma OwnStepKeepsHeld(cfg: Cluster, s: System, x: Label, i: nat, cr: nat, since: nat, fails: nat, d: nat)
    requires Inv(cfg, s) && Enabled(cfg, s, x) && i < |cfg| && Actor(x, i) && x != Cancel(i)
    requires Held(cfg, s, i, cr, since, fails, d) && OnTime(s, i, d)
    ensures Held(cfg, Step(cfg, s, x), i, cr, if Confirms(x, i) then s.nodes[i].wakeAt else since,
                 Streak(cfg, s, x, i, fails), d)
  {
    assert NodeInv(cfg[i], s, i);
    assert (fails + 1) * (ERR_SLEEP + d) == fails * (ERR_SLEEP + d) + ERR_SLEEP + d;
    if x.LoopPut? {
      Append(s.log, Put(KeyOf(cfg[i]), Encoded(cfg[i].info), s.nodes[i].pc.l));
    }
  }

  /** Every confirmed round of a running instance whose key is present puts the key on hold. */
  lemma ConfirmedRoundsHold(cfg: Cluster, s: System, x: Label, i: nat, d: nat)
    requires ValidCluster(cfg) && Inv(cfg, s) && Enabled(cfg, s, x) && i < |cfg| && Confirms(x, i) && OnTime(s, i, d)
    ensures var s', k := Step(cfg, s, x), KeyOf(cfg[i]);
            k in Current(s'.log)
            && Held(cfg, s', i, Current(s'.log)[k].createRev, s.nodes[i].wakeAt, 0, d)
  {
    assert NodeInv(cfg[i], s, i);
    if x.LoopPut? {
      Append(s.log, Put(KeyOf(cfg[i]), Encoded(cfg[i].info), s.nodes[i].pc.l));
    }
  }

  /** A safe key stays held through every steady run. */
  lemma {:induction false} SteadyRunsKeepTheKey(cfg: Cluster, s: System, run: seq<Label>, i: nat, cr: nat, since: nat,
                                               fails: nat, K: nat, d: nat)
    requires ValidCluster(cfg) && Inv(cfg, s) && ValidRun(cfg, s, run) && i < |cfg|
    requires Safe(K, d) && Steady(cfg, s, run, i, K, d, fails) && Held(cfg, s, i, cr, since, fails, d)
    ensures var end := Current(Exec(cfg, s, run).log);
            KeyOf(cfg[i]) in end && end[KeyOf(cfg[i])].createRev == cr
    decreases |run|
  {
    if run != [] {
      var x := run[0];
      HeldLeaseIsInTime(cfg, s, i, cr, since, fails, K, d);
      StepKeepsInv(cfg, s, x);
      if Actor(x, i) {
        OwnStepKeepsHeld(cfg, s, x, i, cr, since, fails, d);
      } else {
        OthersKeepHeld(cfg, s, x, i, cr, since, fails, d);
      }
      SteadyRunsKeepTheKey(cfg, Step(cfg, s, x), run[1..], i, cr,
                           if Confirms(x, i) then s.nodes[i].wakeAt else since, Streak(cfg, s, x, i, fails), K, d);
    }
  }

  /** After one confirmed round an instance rides out every steady run: its key never leaves the store, keeps its
      create revision, and if it led its service it still does. */
  lemma LeadershipSurvivesTransientFailure(cfg: Cluster, s: System, x: Label, run: seq<Label>, i: nat, K: nat, d: nat)
    requires ValidCluster(cfg) && Inv(cfg, s) && i < |cfg| && Safe(K, d)
    requires Enabled(cfg, s, x) && Confirms(x, i) && OnTime(s, i, d)
    requires ValidRun(cfg, Step(cfg, s, x), run) && Steady(cfg, Step(cfg, s, x), run, i, K, d, 0)
    ensures var s', k, path := Step(cfg, s, x), KeyOf(cfg[i]), PathOf(cfg[i]);
            var end := Exec(cfg, s', run);
            && |s'.log| <= |end.log| && PresentThroughout(end.log, k, |s'.log|, |end.log|)
            && Current(end.log)[k].createRev == Current(s'.log)[k].createRev
            && (Leader(Current(s'.log), path, k) ==> Leader(Current(end.log), path, k))
  {
    var s', k := Step(cfg, s, x), KeyOf(cfg[i]);
    var end := Exec(cfg, s', run);
    StepKeepsInv(cfg, s, x);
    ConfirmedRoundsHold(cfg, s, x, i, d);
    SteadyRunsKeepTheKey(cfg, s', run, i, Current(s'.log)[k].createRev, s.nodes[i].wakeAt, 0, K, d);
    LogsOnlyGrow(cfg, s', run);
    GrownLogsKeepSnapshots(s'.log, end.log, |s'.log|);
    SameCreateRevisionIffNeverRemoved(end.log, k, |s'.log|, |end.log|);
    if Leader(Current(s'.log), PathOf(cfg[i]), k) {
      RunKeepsLeader(cfg, s', run, PathOf(cfg[i]), k);
    }
  }

  /** The bound is exact. If the waits can fill a lease, the state after `fails` failing rounds, each as slow as
      allowed, leads on to the loss of the key. */
  ghost function Slipping(cfg: Cluster, i: nat, fails: nat, now: nat, wakeAt: nat): System
    requires i < |cfg|
  {
    var f := if fails == 0 then Flags(1, true, false, false) else Flags(0, false, false, false);
    var start := Initial(cfg);
    System([Put(KeyOf(cfg[i]), Encoded(cfg[i].info), 1)], map[1 := Lease(i, GRANT_LEASE_TTL, true)], now,
           start.nodes[i := FreshNode.(flags := f, pc := AtLoop, wakeAt := wakeAt)])
  }

  lemma FirstPut(cfg: Cluster, i: nat)
    requires i < |cfg|
    ensures Current([Put(KeyOf(cfg[i]), Encoded(cfg[i].info), 1)]) ==
              map[KeyOf(cfg[i]) := KeyValue(Encoded(cfg[i].info), 1, 1)]
  {
    var log := [Put(KeyOf(cfg[i]), Encoded(cfg[i].info), 1)];
    assert At(log, 0) == map[];
  }

  lemma PrependStep(cfg: Cluster, s: System, x: Label, rest: seq<Label>, i: nat, K: nat, d: nat, fails: nat)
    requires |s.nodes| == |cfg| && i < |cfg| && Enabled(cfg, s, x) && x != Cancel(i) && OnTime(s, i, d) && fails <= K
    requires ValidRun(cfg, Step(cfg, s, x), rest)
    requires Steady(cfg, Step(cfg, s, x), rest, i, K, d, Streak(cfg, s, x, i, fails))
    ensures ValidRun(cfg, s, [x] + rest) && Steady(cfg, s, [x] + rest, i, K, d, fails)
    ensures Exec(cfg, s, [x] + rest) == Exec(cfg, Step(cfg, s, x), rest)
  {
    assert ([x] + rest)[1..] == rest;
  }

  /** Time passes until the round is as late as it may be, and the round fails. */
  lemma OneMoreFailure(cfg: Cluster, i: nat, fails: nat, now: nat, wakeAt: nat, d: nat) returns (x: Label)
    requires i < |cfg| && now <= wakeAt + d
    ensures var s, late := Slipping(cfg, i, fails, now, wakeAt), Slipping(cfg, i, fails, wakeAt + d, wakeAt);
            && x != Cancel(i) && Enabled(cfg, s, Tick(wakeAt + d)) && Step(cfg, s, Tick(wakeAt + d)) == late
            && Enabled(cfg, late, x) && Streak(cfg, late, x, i, fails) == fails + 1
            && Step(cfg, late, x) == Slipping(cfg, i, fails + 1, wakeAt + d, wakeAt + d + ERR_SLEEP)
  {
    x := if fails == 0 then LoopCheck(i, false) else LoopGrant(i, GrantFailed, 0);
  }

  /** Time passes until the lease is out, and it expires. */
  lemma ThenTheLeaseExpires(cfg: Cluster, i: nat, fails: nat, wakeAt: nat, d: nat) returns (x: Label)
    requires i < |cfg| && wakeAt + d >= GRANT_LEASE_TTL
    ensures var late := Slipping(cfg, i, fails, wakeAt + d, wakeAt);
            && x.Expire? && Enabled(cfg, late, x)
            && OnTime(Step(cfg, late, x), i, d) && KeyOf(cfg[i]) !in Current(Step(cfg, late, x).log)
  {
    var late, k := Slipping(cfg, i, fails, wakeAt + d, wakeAt), KeyOf(cfg[i]);
    FirstPut(cfg, i);
    assert [k][0] == k;
    Append(late.log, Delete([k]));
    x := Expire(1, [k]);
  }

  /** Waiting as long as allowed, then step `x`, then a steady run, is a steady run. */
  lemma WaitThen(cfg: Cluster, i: nat, K: nat, d: nat, fails: nat, now: nat, wakeAt: nat, x: Label, rest: seq<Label>)
    returns (run: seq<Label>)
    requires i < |cfg| && now <= wakeAt + d && fails <= K && x != Cancel(i)
    requires var late := Slipping(cfg, i, fails, wakeAt + d, wakeAt);
             && Enabled(cfg, late, x) && ValidRun(cfg, Step(cfg, late, x), rest)
             && Steady(cfg, Step(cfg, late, x), rest, i, K, d, Streak(cfg, late, x, i, fails))
    ensures var s, late := Slipping(cfg, i, fails, now, wakeAt), Slipping(cfg, i, fails, wakeAt + d, wakeAt);
            && ValidRun(cfg, s, run) && Steady(cfg, s, run, i, K, d, fails)
            && Exec(cfg, s, run) == Exec(cfg, Step(cfg, late, x), rest)
  {
    var s, late := Slipping(cfg, i, fails, now, wakeAt), Slipping(cfg, i, fails, wakeAt + d, wakeAt);
    assert Step(cfg, s, Tick(wakeAt + d)) == late;
    PrependStep(cfg, late, x, rest, i, K, d, fails);
    PrependStep(cfg, s, Tick(wakeAt + d), [x] + rest, i, K, d, fails);
    run := [Tick(wakeAt + d)] + ([x] + rest);
  }

  /** A steady run of the slipping instance at whose end its key is gone. */
  ghost predicate Loses(cfg: Cluster, i: nat, K: nat, d: nat, fails: nat, s: System, run: seq<Label>)
    requires i < |cfg| && |s.nodes| == |cfg|
  {
    && ValidRun(cfg, s, run) && Steady(cfg, s, run, i, K, d, fails)
    && KeyOf(cfg[i]) !in Current(Exec(cfg, s, run).log)
  }

  lemma LosesNow(cfg: Cluster, i: nat, K: nat, d: nat, now: nat, wakeAt: nat) returns (run: seq<Label>)
    requires i < |cfg| && now <= wakeAt + d && wakeAt + d >= GRANT_LEASE_TTL
    ensures Loses(cfg, i, K, d, K, Slipping(cfg, i, K, now, wakeAt), run)
  {
    var x := ThenTheLeaseExpires(cfg, i, K, wakeAt, d);
    run := WaitThen(cfg, i, K, d, K, now, wakeAt, x, []);
  }

  lemma LosesLater(cfg: Cluster, i: nat, K: nat, d: nat, fails: nat, now: nat, wakeAt: nat, rest: seq<Label>)
    returns (run: seq<Label>)
    requires i < |cfg| && fails < K && now <= wakeAt + d
    requires Loses(cfg, i, K, d, fails + 1, Slipping(cfg, i, fails + 1, wakeAt + d, wakeAt + d + ERR_SLEEP), rest)
    ensures Loses(cfg, i, K, d, fails, Slipping(cfg, i, fails, now, wakeAt), run)
  {
    var x := OneMoreFailure(cfg, i, fails, now, wakeAt, d);
    run := WaitThen(cfg, i, K, d, fails, now, wakeAt, x, rest);
  }

  lemma {:induction false} SlippingLosesTheKey(cfg: Cluster, i: nat, K: nat, d: nat, fails: nat, now: nat, wakeAt: nat)
    returns (run: seq<Label>)
    requires i < |cfg| && fails <= K && now <= wakeAt + d
    requires wakeAt + d + (K - fails) * (ERR_SLEEP + d) >= GRANT_LEASE_TTL
    ensures Loses(cfg, i, K, d, fails, Slipping(cfg, i, fails, now, wakeAt), run)
    decreases K - fails
  {
    if fails == K {
      run := LosesNow(cfg, i, K, d, now, wakeAt);
    } else {
      assert (K - fails) * (ERR_SLEEP + d) == (K - fails - 1) * (ERR_SLEEP + d) + ERR_SLEEP + d;
      var rest := SlippingLosesTheKey(cfg, i, K, d, fails + 1, wakeAt + d, wakeAt + d + ERR_SLEEP);
      run := LosesLater(cfg, i, K, d, fails, now, wakeAt, rest);
    }
  }

  lemma TwoSteps(cfg: Cluster, s: System, x: Label, y: Label) returns (run: seq<Label>)
    requires |s.nodes| == |cfg| && Enabled(cfg, s, x) && Enabled(cfg, Step(cfg, s, x), y)
    ensures ValidRun(cfg, s, run) && Exec(cfg, s, run) == Step(cfg, Step(cfg, s, x), y)
  {
    run := [x, y];
    assert [x, y][1..] == [y] && [y][1..] == [];
    var s1 := Step(cfg, s, x);
    assert ValidRun(cfg, Step(cfg, s1, y), []);
    assert ValidRun(cfg, s1, [y]) && Exec(cfg, s1, [y]) == Step(cfg, s1, y);
  }

  lemma {:induction false} RunsCompose(cfg: Cluster, s: System, a: seq<Label>, b: seq<Label>)
    requires |s.nodes| == |cfg| && ValidRun(cfg, s, a) && ValidRun(cfg, Exec(cfg, s, a), b)
    ensures ValidRun(cfg, s, a + b) && Exec(cfg, s, a + b) == Exec(cfg, Exec(cfg, s, a), b)
    decreases |a|
  {
    if a == [] {
      assert a + b == b;
    } else {
      RunsCompose(cfg, Step(cfg, s, a[0]), a[1..], b);
      assert (a + b)[1..] == a[1..] + b;
    }
  }

  /** Registration brings an instance to its loop. */
  lemma RegistrationReachesLoop(cfg: Cluster, i: nat) returns (run: seq<Label>)
    requires i < |cfg|
    ensures ValidRun(cfg, Initial(cfg), run) && Exec(cfg, Initial(cfg), run) == Slipping(cfg, i, 0, 0, 0)
  {
    var x, y := RegisterGrant(i, Granted(1), 0), RegisterPut(i, true, true);
    assert Step(cfg, Step(cfg, Initial(cfg), x), y) == Slipping(cfg, i, 0, 0, 0);
    run := TwoSteps(cfg, Initial(cfg), x, y);
  }

  /** Its first renewal is answered `d` late. */
  lemma FirstRenewal(cfg: Cluster, i: nat, d: nat) returns (s: System)
    requires i < |cfg|
    ensures var s2, x := Slipping(cfg, i, 0, 0, 0), LoopCheck(i, true);
            Enabled(cfg, s2, x) && Enabled(cfg, Step(cfg, s2, x), Tick(d)) && s == Step(cfg, Step(cfg, s2, x), Tick(d))
    ensures Enabled(cfg, s, LoopRenew(i, true, true, 0)) && OnTime(s, i, d)
    ensures Step(cfg, s, LoopRenew(i, true, true, 0)) == Slipping(cfg, i, 0, d, d + KEEP_ALIVE_INTERVAL)
  {
    FirstPut(cfg, i);
    s := Step(cfg, Step(cfg, Slipping(cfg, i, 0, 0, 0), LoopCheck(i, true)), Tick(d));
  }

  lemma FirstRenewalIsReachable(cfg: Cluster, i: nat, d: nat) returns (before: seq<Label>, s: System)
    requires i < |cfg|
    ensures ValidRun(cfg, Initial(cfg), before) && s == Exec(cfg, Initial(cfg), before)
    ensures Enabled(cfg, s, LoopRenew(i, true, true, 0)) && OnTime(s, i, d)
    ensures Step(cfg, s, LoopRenew(i, true, true, 0)) == Slipping(cfg, i, 0, d, d + KEEP_ALIVE_INTERVAL)
  {
    var a := RegistrationReachesLoop(cfg, i);
    s := FirstRenewal(cfg, i, d);
    var b := TwoSteps(cfg, Slipping(cfg, i, 0, 0, 0), LoopCheck(i, true), Tick(d));
    RunsCompose(cfg, Initial(cfg), a, b);
    before := a + b;
  }

  /** Instance `i` ends a round confirmed after `before`, and then runs steadily through `after`. */
  ghost predicate Scenario(cfg: Cluster, i: nat, K: nat, d: nat, before: seq<Label>, x: Label, after: seq<Label>)
    requires i < |cfg|
  {
    var s := Exec(cfg, Initial(cfg), before);
    && ValidRun(cfg, Initial(cfg), before) && Enabled(cfg, s, x) && Confirms(x, i) && OnTime(s, i, d)
    && ValidRun(cfg, Step(cfg, s, x), after) && Steady(cfg, Step(cfg, s, x), after, i, K, d, 0)
  }

  ghost predicate KeyIsLost(cfg: Cluster, i: nat, before: seq<Label>, x: Label, after: seq<Label>)
    requires i < |cfg|
  {
    KeyOf(cfg[i]) !in Current(Exec(cfg, Step(cfg, Exec(cfg, Initial(cfg), before), x), after).log)
  }

  /** With rounds of latency `d` and at most `K` failing ones in a row, no confirmed key is ever lost exactly when, in
      nanoseconds, 5 s + K * 1 s + (K + 2) * d stays below the 10 s lease. */
  lemma NoKeyIsLostExactlyWhenSafe(cfg: Cluster, i: nat, K: nat, d: nat)
    requires ValidCluster(cfg) && i < |cfg|
    ensures 5_000_000_000 + K * 1_000_000_000 + (K + 2) * d < 10_000_000_000 <==>
              forall before, x, after | Scenario(cfg, i, K, d, before, x, after) :: !KeyIsLost(cfg, i, before, x, after)
  {
    if Safe(K, d) {
      forall before, x, after | Scenario(cfg, i, K, d, before, x, after)
        ensures !KeyIsLost(cfg, i, before, x, after)
      {
        ReachableInv(cfg, before);
        LeadershipSurvivesTransientFailure(cfg, Exec(cfg, Initial(cfg), before), x, after, i, K, d);
      }
    } else {
      var before, _ := FirstRenewalIsReachable(cfg, i, d);
      assert d + KEEP_ALIVE_INTERVAL + d + K * (ERR_SLEEP + d) == WorstWait(K, d);
      var after := SlippingLosesTheKey(cfg, i, K, d, 0, d, d + KEEP_ALIVE_INTERVAL);
      assert Scenario(cfg, i, K, d, before, LoopRenew(i, true, true, 0), after);
      assert KeyIsLost(cfg, i, before, LoopRenew(i, true, true, 0), after);
    }
  }

  /** With instantaneous calls no confirmed key is ever lost exactly when at most four rounds fail in a row. */
  lemma FourFailuresInARowAreSafe(cfg: Cluster, i: nat, K: nat)
    requires ValidCluster(cfg) && i < |cfg|
    ensures K <= 4 <==>
              forall before, x, after | Scenario(cfg, i, K, 0, before, x, after) :: !KeyIsLost(cfg, i, before, x, after)
  {
    NoKeyIsLostExactlyWhenSafe(cfg, i, K, 0);
  }
}
