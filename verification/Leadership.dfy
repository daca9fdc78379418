/** Who leads a service, and that steps and runs displace a leader only by removing its key. */
module Leadership {
  import opened Etcd
  import opened Election
  import opened ServiceState
  import opened Registry
  import opened LeaseInvariant

  /** The loop steps of one instance, with anything else in between, amount to one round of its keep-alive
      loop: same flags, same pause. `s2` is the state in which the second call is answered. */
  lemma LoopStepsMakeARound(cfg: Cluster, s: System, x: Label, s2: System, y: Label, r: Round)
    requires |s.nodes| == |cfg| == |s2.nodes| && Enabled(cfg, s, x) && (x.LoopGrant? || x.LoopCheck?)
    requires s2.nodes[x.i] == Step(cfg, s, x).nodes[x.i]
    requires x.LoopGrant? ==> x.grant == r.grant
    requires x.LoopCheck? ==>
               r.check == if !x.ok then CheckFailed else if KeyOf(cfg[x.i]) in Current(s.log) then Exists else Missing
    requires s2.nodes[x.i].pc != AtLoop ==>
               Enabled(cfg, s2, y) && (y.LoopPut? || y.LoopRenew?) && y.i == x.i
    requires y.LoopPut? ==> y.ok == r.putOk
    requires y.LoopRenew? ==> y.ok == r.renewOk
    ensures var n := s.nodes[x.i];
            if s2.nodes[x.i].pc == AtLoop then
              s2.nodes[x.i] == Sleep(n, AfterRound(n.flags, r), s.now, SleepAfterRound(n.flags, r))
            else
              Step(cfg, s2, y).nodes[x.i] ==
                Sleep(n, AfterRound(n.flags, r), s2.now, SleepAfterRound(n.flags, r))
  {
  }

  /** How one step can change the store. */
  ghost predicate StoreStep(cfg: Cluster, x: Label, log: Log, log': Log) {
    || log' == log
    || (exists i, l :: 0 <= i < |cfg| && Actor(x, i) && (x.RegisterPut? || x.LoopPut?)
                       && log' == log + [Put(KeyOf(cfg[i]), Encoded(cfg[i].info), l)])
    || (exists ks :: log' == log + [Delete(ks)])
  }

  lemma StepsAreStoreSteps(cfg: Cluster, s: System, x: Label)
    requires |s.nodes| == |cfg| && Enabled(cfg, s, x)
    ensures StoreStep(cfg, x, s.log, Step(cfg, s, x).log)
  {
    var log' := Step(cfg, s, x).log;
    if x.RegisterPut? || x.LoopPut? {
      assert log' == s.log || log' == s.log + [Put(KeyOf(cfg[x.i]), Encoded(cfg[x.i].info), s.nodes[x.i].pc.l)];
    }
  }

  /** A put by an instance keeps the order of the keys already there and puts a new key last. */
  lemma PutsKeepOrder(cfg: Cluster, log: Log, i: nat, l: nat, path: string)
    requires OwnPutsOnly(cfg, log) && i < |cfg| && ValidCluster(cfg)
    ensures var k, c := KeyOf(cfg[i]), Current(log);
            var c' := Current(log + [Put(k, Encoded(cfg[i].info), l)]);
            && (forall o | o in c :: o in c' && c'[o].createRev == c[o].createRev)
            && (forall o | o in c :: Eligible(c', path, o) <==> Eligible(c, path, o))
            && (forall o | o in c' && o !in c :: o == k && forall p | p in c :: c[p].createRev < c'[o].createRev)
  {
    var k, c := KeyOf(cfg[i]), Current(log);
    Append(log, Put(k, Encoded(cfg[i].info), l));
    if k in c {
      SnapshotsHoldOwnValues(cfg, log, |log|, k);
      var j :| 0 <= j < |cfg| && k == KeyOf(cfg[j]) && c[k].value == Encoded(cfg[j].info);
      assert i == j;
    }
    forall p | p in c
      ensures c[p].createRev < |log| + 1
    {
      CreateRevisionNamesItsPut(log, |log|, p);
    }
  }

  /** A leader whose key is still there after a step still leads: neither fresh registrations, nor puts that
      rewrite a key, nor the loss of other instances displace it. */
  lemma StepKeepsLeader(cfg: Cluster, s: System, x: Label, path: string, k: string)
    requires ValidCluster(cfg) && Inv(cfg, s) && Enabled(cfg, s, x)
    requires Leader(Current(s.log), path, k) && k in Current(Step(cfg, s, x).log)
    ensures Leader(Current(Step(cfg, s, x).log), path, k)
  {
    StepsAreStoreSteps(cfg, s, x);
    StoreStepKeepsLeader(cfg, x, s.log, Step(cfg, s, x).log, path, k);
  }

  lemma StoreStepKeepsLeader(cfg: Cluster, x: Label, log: Log, log': Log, path: string, k: string)
    requires ValidCluster(cfg) && OwnPutsOnly(cfg, log) && StoreStep(cfg, x, log, log')
    requires Leader(Current(log), path, k) && k in Current(log')
    ensures Leader(Current(log'), path, k)
  {
    if i, l :| 0 <= i < |cfg| && log' == log + [Put(KeyOf(cfg[i]), Encoded(cfg[i].info), l)] {
      PutsKeepOrder(cfg, log, i, l, path);
    } else if ks :| log' == log + [Delete(ks)] {
      Append(log, Delete(ks));
      assert forall o | Eligible(Current(log'), path, o) :: Eligible(Current(log), path, o);
    }
  }

  /** Every new leader is accounted for: it led before, or the previous leader's key was removed, or nobody was
      eligible and its own instance has just put its key. */
  lemma NewLeadersAreAccountedFor(cfg: Cluster, s: System, x: Label, path: string, k: string)
    requires ValidCluster(cfg) && Inv(cfg, s) && Enabled(cfg, s, x)
    requires Leader(Current(Step(cfg, s, x).log), path, k)
    ensures || Leader(Current(s.log), path, k)
            || (exists o :: Leader(Current(s.log), path, o) && o !in Current(Step(cfg, s, x).log))
            || ((forall o :: !Eligible(Current(s.log), path, o))
                && (x.RegisterPut? || x.LoopPut?) && x.i < |cfg| && KeyOf(cfg[x.i]) == k)
  {
    var log, log' := s.log, Step(cfg, s, x).log;
    var c, c' := Current(log), Current(log');
    StepsAreStoreSteps(cfg, s, x);
    if e :| Eligible(c, path, e) {
      var first := SomeLeader(c, path, e);
      if first in c' {
        StoreStepKeepsLeader(cfg, x, log, log', path, first);
        LeaderIsUnique(log', |log'|, path, first, k);
      }
    } else {
      assert !Eligible(c, path, k);
      if i, l :| 0 <= i < |cfg| && Actor(x, i) && (x.RegisterPut? || x.LoopPut?)
                 && log' == log + [Put(KeyOf(cfg[i]), Encoded(cfg[i].info), l)] {
        PutsKeepOrder(cfg, log, i, l, path);
      } else if ks :| log' == log + [Delete(ks)] {
        Append(log, Delete(ks));
      }
    }
  }

  /** If anybody is eligible, somebody leads. */
  lemma SomeLeader(c: Contents, path: string, e: string) returns (k: string)
    requires Eligible(c, path, e)
    ensures Leader(c, path, k)
    decreases c[e].createRev
  {
    if o :| Eligible(c, path, o) && c[o].createRev < c[e].createRev {
      k := SomeLeader(c, path, o);
    } else {
      k := e;
    }
  }

  lemma {:induction false} LogsOnlyGrow(cfg: Cluster, s: System, run: seq<Label>)
    requires |s.nodes| == |cfg| && ValidRun(cfg, s, run)
    ensures s.log <= Exec(cfg, s, run).log
    decreases |run|
  {
    if run != [] {
      StepsAreStoreSteps(cfg, s, run[0]);
      LogsOnlyGrow(cfg, Step(cfg, s, run[0]), run[1..]);
    }
  }

  lemma {:induction false} GrownLogsKeepSnapshots(log: Log, log': Log, r: nat)
    requires log <= log' && r <= |log|
    ensures At(log', r) == At(log, r)
  {
    assert log' == log + log'[|log|..];
    SnapshotsAreStable(log, log'[|log|..], r);
  }

  /** Over any run, a leader whose key never leaves the store still leads at the end. */
  lemma {:induction false} RunKeepsLeader(cfg: Cluster, s: System, run: seq<Label>, path: string, k: string)
    requires ValidCluster(cfg) && Inv(cfg, s) && ValidRun(cfg, s, run)
    requires Leader(Current(s.log), path, k)
    requires var log := Exec(cfg, s, run).log; |s.log| <= |log| && PresentThroughout(log, k, |s.log|, |log|)
    ensures Leader(Current(Exec(cfg, s, run).log), path, k)
    decreases |run|
  {
    if run != [] {
      var s' := Step(cfg, s, run[0]);
      StepKeepsInv(cfg, s, run[0]);
      LogsOnlyGrow(cfg, s', run[1..]);
      StepsAreStoreSteps(cfg, s, run[0]);
      GrownLogsKeepSnapshots(s'.log, Exec(cfg, s, run).log, |s'.log|);
      StepKeepsLeader(cfg, s, run[0], path, k);
      RunKeepsLeader(cfg, s', run[1..], path, k);
    }
  }
}
