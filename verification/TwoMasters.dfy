/**
 Mutual exclusion of the flags is not promised: an instance whose key is gone gets an error from its election
 check, and its flag stays as it was. Any two participating instances of one service can both end up set.
 */
module TwoMasters {
  import opened Etcd
  import opened Election
  import opened ServiceState
  import opened Registry
  import opened LeaseTiming
  import MasterFlags

  /** Two instances in given states, all others untouched. */
  function Pair(cfg: Cluster, log: Log, leases: map<nat, Lease>, now: nat, a: nat, na: Node, b: nat, nb: Node): System
    requires a < |cfg| && b < |cfg| && a != b
  {
    System(log, leases, now, Initial(cfg).nodes[a := na][b := nb])
  }

  /** The put of an instance's own key with lease `l`. */
  function OwnPut(c: Config, l: nat): Mutation {
    Put(KeyOf(c), Encoded(c.info), l)
  }

  function Reading(c: Config, rev: nat, l: nat): Reply {
    Got([Entry(KeyOf(c), KeyValue(Encoded(c.info), rev, l))])
  }

  /** Registered with lease `l` at time `at`. */
  function Registered(l: nat, at: nat, master: bool): Node {
    FreshNode.(flags := Flags(l, true, master, false), pc := AtLoop, wakeAt := at)
  }

  lemma SoleEntryIsRead(c: Config, log: Log, rev: nat, l: nat)
    requires Current(log) == map[KeyOf(c) := KeyValue(Encoded(c.info), rev, l)] && !c.info.disableElection
    ensures ReadsByKey(Reading(c, rev, l), Current(log), KeyOf(c))
    ensures ReadsByCreate(Reading(c, rev, l), Current(log), PathOf(c))
    ensures Compare(rev, Reading(c, rev, l)) == Yes
  {
    var es := Reading(c, rev, l).entries;
    assert es[0].key == KeyOf(c) && PathOf(c) <= KeyOf(c);
    assert FirstEligible(es) == rev;
  }

  lemma SoleSyncSteps(cfg: Cluster, log: Log, leases: map<nat, Lease>, now: nat, a: nat, b: nat, nb: Node, l: nat,
                      x: Label, y: Label)
    requires a < |cfg| && b < |cfg| && a != b && !cfg[a].info.disableElection && |log| > 0
    requires Current(log) == map[KeyOf(cfg[a]) := KeyValue(Encoded(cfg[a].info), |log|, l)]
    requires var reply := Reading(cfg[a], |log|, l);
             x == ReadOwn(a, Timer, |log|, reply) && y == ReadAll(a, Timer, |log|, reply)
    ensures var s := Pair(cfg, log, leases, now, a, Registered(l, now, false), b, nb);
            && Enabled(cfg, s, x) && Enabled(cfg, Step(cfg, s, x), y)
            && Step(cfg, Step(cfg, s, x), y) == Pair(cfg, log, leases, now, a, Registered(l, now, true), b, nb)
  {
    SoleEntryIsRead(cfg[a], log, |log|, l);
    var s1 := Step(cfg, Pair(cfg, log, leases, now, a, Registered(l, now, false), b, nb), x);
    assert s1.nodes[a] == Registered(l, now, false).(sync := FreshNode.sync[Timer := HasOwn(|log|)]);
    assert Step(cfg, s1, y).nodes[a] == Registered(l, now, true);
  }

  /** An instance alone in the store finds itself master. */
  lemma SoleInstanceSyncs(cfg: Cluster, log: Log, leases: map<nat, Lease>, now: nat, a: nat, b: nat, nb: Node, l: nat)
    returns (run: seq<Label>)
    requires a < |cfg| && b < |cfg| && a != b && !cfg[a].info.disableElection && |log| > 0
    requires Current(log) == map[KeyOf(cfg[a]) := KeyValue(Encoded(cfg[a].info), |log|, l)]
    ensures var s := Pair(cfg, log, leases, now, a, Registered(l, now, false), b, nb);
            ValidRun(cfg, s, run)
            && Exec(cfg, s, run) == Pair(cfg, log, leases, now, a, Registered(l, now, true), b, nb)
  {
    hide Step, Enabled;
    var reply := Reading(cfg[a], |log|, l);
    var x, y := ReadOwn(a, Timer, |log|, reply), ReadAll(a, Timer, |log|, reply);
    SoleSyncSteps(cfg, log, leases, now, a, b, nb, l, x, y);
    run := TwoSteps(cfg, Pair(cfg, log, leases, now, a, Registered(l, now, false), b, nb), x, y);
  }

  lemma InstanceRegisters(cfg: Cluster, log: Log, leases: map<nat, Lease>, now: nat, a: nat, b: nat, nb: Node, l: nat)
    returns (run: seq<Label>)
    requires a < |cfg| && b < |cfg| && a != b && l != 0 && l !in leases
    ensures var s := Pair(cfg, log, leases, now, a, FreshNode, b, nb);
            ValidRun(cfg, s, run)
            && Exec(cfg, s, run) == Pair(cfg, log + [OwnPut(cfg[a], l)],
                                         leases[l := Lease(a, now + GRANT_LEASE_TTL, true)], now,
                                         a, Registered(l, now, false), b, nb)
  {
    var s := Pair(cfg, log, leases, now, a, FreshNode, b, nb);
    var x, y := RegisterGrant(a, Granted(l), now), RegisterPut(a, true, true);
    assert Step(cfg, Step(cfg, s, x), y) ==
             Pair(cfg, log + [OwnPut(cfg[a], l)], leases[l := Lease(a, now + GRANT_LEASE_TTL, true)], now,
                  a, Registered(l, now, false), b, nb);
    run := TwoSteps(cfg, s, x, y);
  }

  /** An instance that registers in an empty store becomes master. */
  lemma InstanceBecomesMaster(cfg: Cluster, log: Log, leases: map<nat, Lease>, now: nat, a: nat, b: nat, nb: Node,
                              l: nat)
    returns (run: seq<Label>)
    requires a < |cfg| && b < |cfg| && a != b && l != 0 && l !in leases && !cfg[a].info.disableElection
    requires Current(log) == map[]
    ensures var s := Pair(cfg, log, leases, now, a, FreshNode, b, nb);
            ValidRun(cfg, s, run)
            && Exec(cfg, s, run) == Pair(cfg, log + [OwnPut(cfg[a], l)],
                                         leases[l := Lease(a, now + GRANT_LEASE_TTL, true)], now,
                                         a, Registered(l, now, true), b, nb)
  {
    var log', leases' := log + [OwnPut(cfg[a], l)], leases[l := Lease(a, now + GRANT_LEASE_TTL, true)];
    Append(log, OwnPut(cfg[a], l));
    var r1 := InstanceRegisters(cfg, log, leases, now, a, b, nb, l);
    var r2 := SoleInstanceSyncs(cfg, log', leases', now, a, b, nb, l);
    RunsCompose(cfg, Pair(cfg, log, leases, now, a, FreshNode, b, nb), r1, r2);
    run := r1 + r2;
  }

  /** The state once the first instance has found itself master, and the state once its lease has run out. */
  function Alone(cfg: Cluster, a: nat, b: nat): System
    requires a < |cfg| && b < |cfg| && a != b
  {
    Pair(cfg, [OwnPut(cfg[a], 1)], map[1 := Lease(a, GRANT_LEASE_TTL, true)], 0,
         a, Registered(1, 0, true), b, FreshNode)
  }

  function Gone(cfg: Cluster, a: nat, b: nat): System
    requires a < |cfg| && b < |cfg| && a != b
  {
    Pair(cfg, [OwnPut(cfg[a], 1), Delete([KeyOf(cfg[a])])], map[1 := Lease(a, GRANT_LEASE_TTL, false)],
         GRANT_LEASE_TTL, b, FreshNode, a, Registered(1, 0, true))
  }

  lemma FirstBecomesMaster(cfg: Cluster, a: nat, b: nat) returns (run: seq<Label>)
    requires a < |cfg| && b < |cfg| && a != b && !cfg[a].info.disableElection
    ensures ValidRun(cfg, Initial(cfg), run) && Exec(cfg, Initial(cfg), run) == Alone(cfg, a, b)
  {
    assert Initial(cfg) == Pair(cfg, [], map[], 0, a, FreshNode, b, FreshNode);
    assert [] + [OwnPut(cfg[a], 1)] == [OwnPut(cfg[a], 1)];
    run := InstanceBecomesMaster(cfg, [], map[], 0, a, b, FreshNode, 1);
  }

  lemma LeaseCanExpire(cfg: Cluster, a: nat, b: nat)
    requires a < |cfg| && b < |cfg| && a != b
    ensures var x, y := Tick(GRANT_LEASE_TTL), Expire(1, [KeyOf(cfg[a])]);
            && Enabled(cfg, Alone(cfg, a, b), x) && Enabled(cfg, Step(cfg, Alone(cfg, a, b), x), y)
            && Step(cfg, Step(cfg, Alone(cfg, a, b), x), y) == Gone(cfg, a, b)
  {
    var k := KeyOf(cfg[a]);
    FirstPut(cfg, a);
    assert [k][0] == k;
    assert [OwnPut(cfg[a], 1)] + [Delete([k])] == [OwnPut(cfg[a], 1), Delete([k])];
  }

  lemma SecondBecomesMaster(cfg: Cluster, a: nat, b: nat) returns (run: seq<Label>)
    requires a < |cfg| && b < |cfg| && a != b && !cfg[b].info.disableElection
    ensures ValidRun(cfg, Gone(cfg, a, b), run)
    ensures var end := Exec(cfg, Gone(cfg, a, b), run); end.nodes[a].flags.master && end.nodes[b].flags.master
  {
    var first, gone := [OwnPut(cfg[a], 1)], Gone(cfg, a, b);
    FirstPut(cfg, a);
    assert first + [Delete([KeyOf(cfg[a])])] == gone.log;
    Append(first, Delete([KeyOf(cfg[a])]));
    assert Current(gone.log) == map[];
    run := InstanceBecomesMaster(cfg, gone.log, gone.leases, gone.now, b, a, Registered(1, 0, true), 2);
  }

  /** The witness: two set flags in one reachable state, of any two instances that have not opted out. */
  lemma TwoFlagsCanBeSet(cfg: Cluster, a: nat, b: nat) returns (run: seq<Label>)
    requires a < |cfg| && b < |cfg| && a != b
    requires !cfg[a].info.disableElection && !cfg[b].info.disableElection
    ensures ValidRun(cfg, Initial(cfg), run)
    ensures var end := Exec(cfg, Initial(cfg), run); end.nodes[a].flags.master && end.nodes[b].flags.master
  {
    hide Step, Enabled;
    var r1 := FirstBecomesMaster(cfg, a, b);
    LeaseCanExpire(cfg, a, b);
    var r2 := TwoSteps(cfg, Alone(cfg, a, b), Tick(GRANT_LEASE_TTL), Expire(1, [KeyOf(cfg[a])]));
    var r3 := SecondBecomesMaster(cfg, a, b);
    RunsCompose(cfg, Initial(cfg), r1, r2);
    RunsCompose(cfg, Initial(cfg), r1 + r2, r3);
    run := r1 + r2 + r3;
  }

  ghost predicate BothSet(cfg: Cluster, run: seq<Label>, a: nat, b: nat)
    requires a < |cfg| && b < |cfg|
  {
    var end := Exec(cfg, Initial(cfg), run);
    end.nodes[a].flags.master && end.nodes[b].flags.master
  }

  /** Some run sets the flags of two instances at once exactly when neither has opted out of election. */
  lemma TwoFlagsCanBeSetIff(cfg: Cluster, a: nat, b: nat)
    requires ValidCluster(cfg) && a < |cfg| && b < |cfg| && a != b
    ensures (exists run :: ValidRun(cfg, Initial(cfg), run) && BothSet(cfg, run, a, b)) <==>
              !cfg[a].info.disableElection && !cfg[b].info.disableElection
  {
    if !cfg[a].info.disableElection && !cfg[b].info.disableElection {
      var run := TwoFlagsCanBeSet(cfg, a, b);
      assert BothSet(cfg, run, a, b);
    }
    forall run | ValidRun(cfg, Initial(cfg), run) && BothSet(cfg, run, a, b)
      ensures !cfg[a].info.disableElection && !cfg[b].info.disableElection
    {
      if cfg[a].info.disableElection {
        MasterFlags.OptedOutInstancesNeverLead(cfg, run, a);
      }
      if cfg[b].info.disableElection {
        MasterFlags.OptedOutInstancesNeverLead(cfg, run, b);
      }
    }
  }
}
