/** What a shutdown does to the store, and what can still happen after it (Deregister in pkg/serviced/service.go). */
module Deregistration {
  import opened Etcd
  import opened ServiceState
  import opened Registry
  import opened LeaseInvariant

  /** Once a delete has been applied the key is gone, whether or not the instance is told. */
  lemma DeletingRemovesTheKey(cfg: Cluster, s: System, i: nat, ok: bool)
    requires |s.nodes| == |cfg| && i < |cfg| && Enabled(cfg, s, DeleteKey(i, ok, true))
    ensures KeyOf(cfg[i]) !in Current(Step(cfg, s, DeleteKey(i, ok, true)).log)
    ensures forall k | k != KeyOf(cfg[i]) ::
              k in Current(Step(cfg, s, DeleteKey(i, ok, true)).log) <==> k in Current(s.log)
  {
    Append(s.log, Delete([KeyOf(cfg[i])]));
  }

  // ----- can the key come back? -----

  /** A put of the instance is under way with a lease that is still alive. */
  predicate PutUnderWay(s: System, i: nat)
    requires i < |s.nodes|
  {
    var pc := s.nodes[i].pc;
    (pc.RegisterPutting? || pc.LoopPutting?) && pc.l in s.leases && s.leases[pc.l].live
  }

  /** The instance has been told to stop, its key is not stored, and no put can bring it back. */
  ghost predicate Away(cfg: Cluster, s: System, i: nat)
    requires i < |cfg| == |s.nodes|
  {
    s.nodes[i].shutdown != Serving && KeyOf(cfg[i]) !in Current(s.log) && !PutUnderWay(s, i)
  }

  lemma OwnStepKeepsAway(cfg: Cluster, s: System, x: Label, i: nat)
    requires Inv(cfg, s) && i < |cfg| && Enabled(cfg, s, x) && Actor(x, i) && Away(cfg, s, i)
    ensures Away(cfg, Step(cfg, s, x), i)
  {
    assert NodeInv(cfg[i], s, i);
  }

  lemma OthersKeepAway(cfg: Cluster, s: System, x: Label, i: nat)
    requires ValidCluster(cfg) && Inv(cfg, s) && i < |cfg| && Enabled(cfg, s, x) && !Actor(x, i) && Away(cfg, s, i)
    ensures Away(cfg, Step(cfg, s, x), i)
  {
    assert NodeInv(cfg[i], s, i);
    if x.Expire? {
      Append(s.log, Delete(x.keys));
    } else if !x.Tick? {
      OthersUndisturbed(cfg, s, x, i);
    }
  }

  lemma {:induction false} RunsKeepAway(cfg: Cluster, s: System, run: seq<Label>, i: nat)
    requires ValidCluster(cfg) && Inv(cfg, s) && i < |cfg| && ValidRun(cfg, s, run) && Away(cfg, s, i)
    ensures Away(cfg, Exec(cfg, s, run), i)
    decreases |run|
  {
    hide Step, Enabled, Away;
    if run != [] {
      var x := run[0];
      if Actor(x, i) {
        OwnStepKeepsAway(cfg, s, x, i);
      } else {
        OthersKeepAway(cfg, s, x, i);
      }
      StepKeepsInv(cfg, s, x);
      RunsKeepAway(cfg, Step(cfg, s, x), run[1..], i);
    }
  }

  /** Some run stores the key of `i` again. */
  ghost predicate CanComeBack(cfg: Cluster, s: System, i: nat)
    requires i < |cfg| == |s.nodes|
  {
    exists run :: ValidRun(cfg, s, run) && KeyOf(cfg[i]) in Current(Exec(cfg, s, run).log)
  }

  /** The key of an instance that has been told to stop can come back exactly when a put of it was still under way with
      a live lease: stopping the loop does not take that put back. */
  lemma ComesBackIffPutUnderWay(cfg: Cluster, s: System, i: nat)
    requires ValidCluster(cfg) && Inv(cfg, s) && i < |cfg|
    requires s.nodes[i].shutdown != Serving && KeyOf(cfg[i]) !in Current(s.log)
    ensures CanComeBack(cfg, s, i) <==> PutUnderWay(s, i)
  {
    if PutUnderWay(s, i) {
      LatePutRestoresTheKey(cfg, s, i);
    } else {
      forall run | ValidRun(cfg, s, run)
        ensures KeyOf(cfg[i]) !in Current(Exec(cfg, s, run).log)
      {
        RunsKeepAway(cfg, s, run, i);
      }
    }
  }

  /** The put reports an error, and has been applied. */
  lemma LatePutRestoresTheKey(cfg: Cluster, s: System, i: nat)
    requires |s.nodes| == |cfg| && i < |cfg| && PutUnderWay(s, i)
    ensures CanComeBack(cfg, s, i)
  {
    var pc := s.nodes[i].pc;
    var x := if pc.RegisterPutting? then RegisterPut(i, false, true) else LoopPut(i, false, true);
    Append(s.log, Put(KeyOf(cfg[i]), Encoded(cfg[i].info), pc.l));
    assert [x][1..] == [];
    assert ValidRun(cfg, Step(cfg, s, x), []) && ValidRun(cfg, s, [x]);
    assert Exec(cfg, s, [x]) == Exec(cfg, Step(cfg, s, x), []) == Step(cfg, s, x);
  }

  /** From a delete that has been applied on, the key stays out of the store in every run, if no put was under way. */
  lemma DeregisteredStaysAway(cfg: Cluster, s: System, i: nat, ok: bool, run: seq<Label>)
    requires ValidCluster(cfg) && Inv(cfg, s) && i < |cfg| && Enabled(cfg, s, DeleteKey(i, ok, true))
    requires !PutUnderWay(s, i) && ValidRun(cfg, Step(cfg, s, DeleteKey(i, ok, true)), run)
    ensures KeyOf(cfg[i]) !in Current(Exec(cfg, Step(cfg, s, DeleteKey(i, ok, true)), run).log)
  {
    DeletingRemovesTheKey(cfg, s, i, ok);
    StepKeepsInv(cfg, s, DeleteKey(i, ok, true));
    RunsKeepAway(cfg, Step(cfg, s, DeleteKey(i, ok, true)), run, i);
  }

  // ----- the flag and the loop -----

  lemma StepKeepsCleared(cfg: Cluster, s: System, x: Label, i: nat)
    requires |s.nodes| == |cfg| && i < |cfg| && Enabled(cfg, s, x)
    requires s.nodes[i].shutdown == Cleared ==> !s.nodes[i].flags.registered
    ensures var n := Step(cfg, s, x).nodes[i]; n.shutdown == Cleared ==> !n.flags.registered
  {
    hide LogDelete, LogPut, Grants, SetDeadline, Revoke, Compare, Current, KeyOf, BoundKeys, IsRange;
  }

  lemma {:induction false} RunsKeepCleared(cfg: Cluster, s: System, run: seq<Label>, i: nat)
    requires |s.nodes| == |cfg| && i < |cfg| && ValidRun(cfg, s, run)
    requires s.nodes[i].shutdown == Cleared ==> !s.nodes[i].flags.registered
    ensures var n := Exec(cfg, s, run).nodes[i]; n.shutdown == Cleared ==> !n.flags.registered
    decreases |run|
  {
    hide Step, Enabled;
    if run != [] {
      StepKeepsCleared(cfg, s, run[0], i);
      RunsKeepCleared(cfg, Step(cfg, s, run[0]), run[1..], i);
    }
  }

  /** In no run is an instance registered once a shutdown has come to its end. */
  lemma ShutDownMeansUnregistered(cfg: Cluster, run: seq<Label>, i: nat)
    requires ValidRun(cfg, Initial(cfg), run) && i < |cfg|
    requires Exec(cfg, Initial(cfg), run).nodes[i].shutdown == Cleared
    ensures !Exec(cfg, Initial(cfg), run).nodes[i].flags.registered
  {
    RunsKeepCleared(cfg, Initial(cfg), run, i);
  }

  /** A call of the registration or of the keep-alive loop of `i`. */
  predicate CallsStore(x: Label, i: nat) {
    (x.RegisterGrant? || x.RegisterPut? || x.LoopGrant? || x.LoopPut? || x.LoopCheck? || x.LoopRenew?) && x.i == i
  }

  lemma StepKeepsStopped(cfg: Cluster, s: System, x: Label, i: nat)
    requires |s.nodes| == |cfg| && i < |cfg| && Enabled(cfg, s, x) && s.nodes[i].pc == Stopped
    ensures !CallsStore(x, i) && Step(cfg, s, x).nodes[i].pc == Stopped
  {
    hide LogDelete, LogPut, Grants, SetDeadline, Revoke, Compare, Current, KeyOf, BoundKeys, IsRange;
  }

  /** Once the loop has seen the cancellation it makes no call any more, in any run. */
  lemma {:induction false} StoppedLoopsAreSilent(cfg: Cluster, s: System, run: seq<Label>, i: nat)
    requires |s.nodes| == |cfg| && i < |cfg| && ValidRun(cfg, s, run) && s.nodes[i].pc == Stopped
    ensures forall x | x in run :: !CallsStore(x, i)
    decreases |run|
  {
    hide Step, Enabled;
    if run != [] {
      StepKeepsStopped(cfg, s, run[0], i);
      StoppedLoopsAreSilent(cfg, Step(cfg, s, run[0]), run[1..], i);
      assert run == [run[0]] + run[1..];
    }
  }

  /** So what a cancelled instance's loop does last is to stop. */
  lemma StoppingEndsTheLoop(cfg: Cluster, s: System, run: seq<Label>, i: nat)
    requires |s.nodes| == |cfg| && i < |cfg| && Enabled(cfg, s, LoopStop(i))
    requires ValidRun(cfg, Step(cfg, s, LoopStop(i)), run)
    ensures s.nodes[i].shutdown != Serving && forall x | x in run :: !CallsStore(x, i)
  {
    StoppedLoopsAreSilent(cfg, Step(cfg, s, LoopStop(i)), run, i);
  }
}
