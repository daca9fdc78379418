/** How an instance that has lost its key notices and registers again (keepAlive in pkg/serviced/service.go). */
module Recovery {
  import opened Etcd
  import opened ServiceState
  import opened Registry
  import opened LeaseInvariant
  import opened LeaseTiming

  /** A check that does not find the key drops flag and lease, and the next round is due a second later. */
  lemma MissingKeyIsNoticed(cfg: Cluster, s: System, i: nat, ok: bool)
    requires |s.nodes| == |cfg| && i < |cfg| && Enabled(cfg, s, LoopCheck(i, ok)) && KeyOf(cfg[i]) !in Current(s.log)
    ensures var n := Step(cfg, s, LoopCheck(i, ok)).nodes[i];
            && !n.flags.registered && n.flags.leaseID == 0 && n.pc == AtLoop && n.wakeAt == s.now + 1_000_000_000
            && n.shutdown == s.nodes[i].shutdown
    ensures Step(cfg, s, LoopCheck(i, ok)).log == s.log
  {
  }

  /** A due round of a serving instance can meet any answer: without a lease a grant or its failure, with one a check or
      its failure. */
  lemma RoundsMeetAnyAnswer(cfg: Cluster, s: System, i: nat, g: Grant, ok: bool)
    requires |s.nodes| == |cfg| && i < |cfg| && s.nodes[i].shutdown == Serving
    requires s.nodes[i].pc == AtLoop && s.now >= s.nodes[i].wakeAt
    requires g.Granted? ==> g.l != 0 && g.l !in s.leases
    ensures s.nodes[i].flags.leaseID == 0 ==> Enabled(cfg, s, LoopGrant(i, g, s.now))
    ensures s.nodes[i].flags.leaseID != 0 ==> Enabled(cfg, s, LoopCheck(i, ok))
  {
  }

  /** A put or a renewal under way can be acknowledged, or fail with or without effect, while its lease is alive; once
      the lease is gone it can only fail. */
  lemma CallsMeetAnyAnswer(cfg: Cluster, s: System, i: nat, ok: bool, applied: bool)
    requires |s.nodes| == |cfg| && i < |cfg| && s.nodes[i].shutdown == Serving
    ensures var pc := s.nodes[i].pc;
            && (pc.LoopPutting? ==> (Enabled(cfg, s, LoopPut(i, ok, applied)) <==>
                                       (ok ==> applied) && (applied ==> pc.l in s.leases && s.leases[pc.l].live)))
            && (pc.RegisterPutting? ==> (Enabled(cfg, s, RegisterPut(i, ok, applied)) <==>
                                           (ok ==> applied) && (applied ==> pc.l in s.leases && s.leases[pc.l].live)))
    ensures var n := s.nodes[i];
            n.pc == Renewing && s.now >= n.wakeAt ==>
              (Enabled(cfg, s, LoopRenew(i, ok, applied, s.now)) <==>
                 (ok ==> applied) && (applied ==> n.flags.leaseID in s.leases && s.leases[n.flags.leaseID].live))
  {
  }

  /** Both reads of the election check can see any revision the store has gone through, or fail. */
  lemma ReadsSeeAnyRevision(cfg: Cluster, s: System, i: nat, t: Task, rev: nat, reply: Reply)
    requires |s.nodes| == |cfg| && i < |cfg| && t in s.nodes[i].sync && rev <= |s.log|
    ensures s.nodes[i].sync[t] == Ready && (reply.Got? ==> ReadsByKey(reply, At(s.log, rev), KeyOf(cfg[i]))) ==>
              Enabled(cfg, s, ReadOwn(i, t, rev, reply))
    ensures s.nodes[i].sync[t].HasOwn? && (reply.Got? ==> ReadsByCreate(reply, At(s.log, rev), PathOf(cfg[i]))) ==>
              Enabled(cfg, s, ReadAll(i, t, rev, reply))
  {
  }

  /** A lease id the store has not given out. */
  lemma {:induction false} FreshLease(leases: set<nat>) returns (l: nat)
    ensures l != 0 && forall m | m in leases :: m < l
    decreases |leases|
  {
    if leases == {} {
      l := 1;
    } else {
      var m :| m in leases;
      var below := FreshLease(leases - {m});
      assert forall k | k in leases :: k == m || k in leases - {m};
      l := if m < below then below else m + 1;
    }
  }

  /** A round without a lease whose calls succeed, from when it is due. */
  lemma RoundWithoutLeaseRegisters(cfg: Cluster, s: System, i: nat) returns (run: seq<Label>)
    requires |s.nodes| == |cfg| && i < |cfg| && s.nodes[i].shutdown == Serving
    requires s.nodes[i].pc == AtLoop && s.nodes[i].flags.leaseID == 0 && s.now >= s.nodes[i].wakeAt
    ensures ValidRun(cfg, s, run)
    ensures var end := Exec(cfg, s, run);
            && KeyOf(cfg[i]) in Current(end.log) && end.nodes[i].flags.registered
            && Current(end.log)[KeyOf(cfg[i])].value == Encoded(cfg[i].info)
            && Current(end.log)[KeyOf(cfg[i])].lease == end.nodes[i].flags.leaseID
  {
    var l := FreshLease(s.leases.Keys);
    var x, y := LoopGrant(i, Granted(l), s.now), LoopPut(i, true, true);
    var s1 := Step(cfg, s, x);
    Append(s1.log, Put(KeyOf(cfg[i]), Encoded(cfg[i].info), l));
    run := TwoSteps(cfg, s, x, y);
  }

  /** From any state in which the loop of a serving instance waits, with its key gone, two successful rounds at most,
      with nothing but time passing between, put the key back. */
  lemma LostKeyComesBack(cfg: Cluster, s: System, i: nat) returns (run: seq<Label>)
    requires |s.nodes| == |cfg| && i < |cfg| && s.nodes[i].shutdown == Serving && s.nodes[i].pc == AtLoop
    requires KeyOf(cfg[i]) !in Current(s.log)
    ensures ValidRun(cfg, s, run)
    ensures var end := Exec(cfg, s, run);
            && KeyOf(cfg[i]) in Current(end.log) && end.nodes[i].flags.registered
            && Current(end.log)[KeyOf(cfg[i])].lease == end.nodes[i].flags.leaseID
  {
    hide Step, Enabled;
    var due, s1 := WaitsUntilDue(cfg, s, i);
    if s.nodes[i].flags.leaseID == 0 {
      var round := RoundWithoutLeaseRegisters(cfg, s1, i);
      RunsCompose(cfg, s, due, round);
      run := due + round;
    } else {
      var noticed, s2 := NoticesAndWaits(cfg, s1, i);
      var round := RoundWithoutLeaseRegisters(cfg, s2, i);
      RunsCompose(cfg, s, due, noticed);
      RunsCompose(cfg, s, due + noticed, round);
      run := due + noticed + round;
    }
  }

  lemma WaitsUntilDue(cfg: Cluster, s: System, i: nat) returns (run: seq<Label>, s': System)
    requires |s.nodes| == |cfg| && i < |cfg|
    ensures ValidRun(cfg, s, run) && s' == Exec(cfg, s, run)
    ensures s'.nodes == s.nodes && s'.log == s.log && s'.now >= s.nodes[i].wakeAt
  {
    var x := Tick(if s.now >= s.nodes[i].wakeAt then s.now else s.nodes[i].wakeAt);
    run, s' := [x], Step(cfg, s, x);
    assert [x][1..] == [];
    assert ValidRun(cfg, s', []) && Exec(cfg, s', []) == s';
  }

  lemma NoticesAndWaits(cfg: Cluster, s: System, i: nat) returns (run: seq<Label>, s': System)
    requires |s.nodes| == |cfg| && i < |cfg| && s.nodes[i].shutdown == Serving && s.nodes[i].pc == AtLoop
    requires s.nodes[i].flags.leaseID != 0 && s.now >= s.nodes[i].wakeAt && KeyOf(cfg[i]) !in Current(s.log)
    ensures ValidRun(cfg, s, run) && s' == Exec(cfg, s, run)
    ensures var n := s'.nodes[i];
            n.shutdown == Serving && n.pc == AtLoop && n.flags.leaseID == 0 && s'.now >= n.wakeAt
  {
    var x := LoopCheck(i, true);
    MissingKeyIsNoticed(cfg, s, i, true);
    var s1 := Step(cfg, s, x);
    var y := Tick(s1.now + 1_000_000_000);
    run := TwoSteps(cfg, s, x, y);
    s' := Step(cfg, s1, y);
  }
}
