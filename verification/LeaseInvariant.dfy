/** What every reachable state of the registry satisfies. */
module LeaseInvariant {
  import opened Etcd
  import opened Election
  import opened ServiceState
  import opened Registry

  /** Instances only ever publish their own value under their own key. */
  ghost predicate OwnPutsOnly(cfg: Cluster, log: Log) {
    forall r | 0 <= r < |log| && log[r].Put? ::
      exists i :: 0 <= i < |cfg| && log[r].key == KeyOf(cfg[i]) && log[r].value == Encoded(cfg[i].info)
  }

  predicate Owns(s: System, i: nat, l: nat) {
    l in s.leases && s.leases[l].owner == i
  }

  /** The lease discipline of one instance:
      before shutdown clears it, the registered flag says exactly that a lease is held;
      a held lease is the one the instance's key is bound to, whenever the key is present;
      and a present key is bound to a live lease granted to that instance. */
  ghost predicate NodeInv(c: Config, s: System, i: nat)
    requires i < |s.nodes|
  {
    var n, k, now := s.nodes[i], KeyOf(c), Current(s.log);
    var l := n.flags.leaseID;
    && (n.flags.registered ==> l != 0)
    && (n.shutdown != Cleared ==> (n.flags.registered <==> l != 0))
    && (l != 0 ==> Owns(s, i, l) && n.pc in {AtLoop, Renewing, Stopped})
    && (l != 0 && k in now ==> now[k].lease == l)
    && (n.pc == Renewing ==> l != 0)
    && (n.pc == Renewing && n.shutdown == Serving && LiveLease(s, l) ==> k in now)
    && (n.pc.RegisterPutting? || n.pc.LoopPutting? ==> Owns(s, i, n.pc.l))
    && (n.pc.LoopPutting? ==> s.leases[n.pc.l].deadline >= n.wakeAt + GRANT_LEASE_TTL)
    && (n.pc.LoopPutting? || n.pc == Renewing ==> s.now >= n.wakeAt)
    && (k in now ==> Owns(s, i, now[k].lease) && s.leases[now[k].lease].live)
  }

  ghost predicate Inv(cfg: Cluster, s: System) {
    && |s.nodes| == |cfg|
    && 0 !in s.leases
    && OwnPutsOnly(cfg, s.log)
    && (forall i | 0 <= i < |cfg| :: NodeInv(cfg[i], s, i))
  }

  /** Everything an instance relies on about another instance's step. */
  ghost predicate Undisturbed(c: Config, s: System, s': System, i: nat)
    requires i < |s.nodes| && i < |s'.nodes|
  {
    var k := KeyOf(c);
    var now, now' := Current(s.log), Current(s'.log);
    && s'.nodes[i] == s.nodes[i]
    && s'.now >= s.now
    && (forall l | Owns(s, i, l) :: l in s'.leases && s'.leases[l] == s.leases[l])
    && (k in now <==> k in now')
    && (k in now ==> now'[k] == now[k])
  }

  lemma UndisturbedKeepsNodeInv(c: Config, s: System, s': System, i: nat)
    requires i < |s.nodes| && i < |s'.nodes| && NodeInv(c, s, i) && Undisturbed(c, s, s', i)
    ensures NodeInv(c, s', i)
  {
  }

  /** Writing one key leaves every other key alone. */
  lemma WritesAreLocal(log: Log, k: string, v: Value, l: nat, o: string)
    requires o != k
    ensures var now, put, del := Current(log), Current(log + [Put(k, v, l)]), Current(log + [Delete([k])]);
            && (o in now <==> o in put) && (o in now ==> put[o] == now[o])
            && (o in now <==> o in del) && (o in now ==> del[o] == now[o])
  {
    Append(log, Put(k, v, l));
    Append(log, Delete([k]));
  }

  /** A store-writing step of one instance does not disturb another. */
  lemma WritersDoNotDisturb(cfg: Cluster, s: System, x: Label, j: nat)
    requires ValidCluster(cfg) && Inv(cfg, s) && Enabled(cfg, s, x)
    requires (x.RegisterPut? || x.LoopPut? || x.DeleteKey?) && j < |cfg| && j != x.i
    ensures Undisturbed(cfg[j], s, Step(cfg, s, x), j)
  {
    var pc := s.nodes[x.i].pc;
    var l := if x.DeleteKey? then 0 else pc.l;
    assert !(KeyOf(cfg[x.i]) <= KeyOf(cfg[j]));
    WritesAreLocal(s.log, KeyOf(cfg[x.i]), Encoded(cfg[x.i].info), l, KeyOf(cfg[j]));
  }

  /** A step of one instance does not disturb another. */
  lemma OthersUndisturbed(cfg: Cluster, s: System, x: Label, j: nat)
    requires ValidCluster(cfg) && Inv(cfg, s) && Enabled(cfg, s, x)
    requires !x.Expire? && !x.Tick? && j < |cfg| && j != x.i
    ensures Undisturbed(cfg[j], s, Step(cfg, s, x), j)
  {
    if x.RegisterPut? || x.LoopPut? || x.DeleteKey? {
      WritersDoNotDisturb(cfg, s, x, j);
    } else {
      assert NodeInv(cfg[x.i], s, x.i);
    }
  }

  /** A round of an instance's keep-alive loop keeps its invariant at every step. */
  lemma LoopKeepsNodeInv(cfg: Cluster, s: System, x: Label)
    requires ValidCluster(cfg) && Inv(cfg, s) && Enabled(cfg, s, x)
    requires x.LoopGrant? || x.LoopPut? || x.LoopCheck? || x.LoopRenew?
    ensures NodeInv(cfg[x.i], Step(cfg, s, x), x.i)
  {
    assert NodeInv(cfg[x.i], s, x.i);
    if x.LoopPut? {
      Append(s.log, Put(KeyOf(cfg[x.i]), Encoded(cfg[x.i].info), s.nodes[x.i].pc.l));
    }
  }

  /** So do registration and shutdown. */
  lemma LifecycleKeepsNodeInv(cfg: Cluster, s: System, x: Label)
    requires ValidCluster(cfg) && Inv(cfg, s) && Enabled(cfg, s, x)
    requires x.RegisterGrant? || x.RegisterPut? || x.LoopStop? || x.Cancel? || x.DeleteKey? || x.ClearFlag?
    ensures NodeInv(cfg[x.i], Step(cfg, s, x), x.i)
  {
    assert NodeInv(cfg[x.i], s, x.i);
    if x.RegisterPut? {
      Append(s.log, Put(KeyOf(cfg[x.i]), Encoded(cfg[x.i].info), s.nodes[x.i].pc.l));
    } else if x.DeleteKey? {
      Append(s.log, Delete([KeyOf(cfg[x.i])]));
    }
  }

  /** So do the sync goroutines, which touch nothing but the master flag. */
  lemma SyncKeepsNodeInv(cfg: Cluster, s: System, x: Label)
    requires Inv(cfg, s) && Enabled(cfg, s, x) && (x.ReadOwn? || x.ReadAll? || x.SetDisabled?)
    ensures NodeInv(cfg[x.i], Step(cfg, s, x), x.i)
  {
    assert NodeInv(cfg[x.i], s, x.i);
  }

  lemma OwnStepKeepsNodeInv(cfg: Cluster, s: System, x: Label)
    requires ValidCluster(cfg) && Inv(cfg, s) && Enabled(cfg, s, x) && !x.Expire? && !x.Tick?
    ensures NodeInv(cfg[x.i], Step(cfg, s, x), x.i)
  {
    if x.LoopGrant? || x.LoopPut? || x.LoopCheck? || x.LoopRenew? {
      LoopKeepsNodeInv(cfg, s, x);
    } else if x.ReadOwn? || x.ReadAll? || x.SetDisabled? {
      SyncKeepsNodeInv(cfg, s, x);
    } else {
      LifecycleKeepsNodeInv(cfg, s, x);
    }
  }

  /** The expiry of a lease leaves every instance with its invariant. */
  lemma ExpiryKeepsNodeInv(cfg: Cluster, s: System, l: nat, keys: seq<string>, j: nat)
    requires Inv(cfg, s) && Enabled(cfg, s, Expire(l, keys)) && j < |cfg|
    ensures NodeInv(cfg[j], Step(cfg, s, Expire(l, keys)), j)
  {
    assert NodeInv(cfg[j], s, j);
    Append(s.log, Delete(keys));
  }

  lemma StepKeepsOwnPuts(cfg: Cluster, s: System, x: Label)
    requires Inv(cfg, s) && Enabled(cfg, s, x)
    ensures OwnPutsOnly(cfg, Step(cfg, s, x).log)
  {
    var log' := Step(cfg, s, x).log;
    forall r | 0 <= r < |log'| && log'[r].Put?
      ensures exists i :: 0 <= i < |cfg| && log'[r].key == KeyOf(cfg[i]) && log'[r].value == Encoded(cfg[i].info)
    {
      if r < |s.log| {
        assert log'[r] == s.log[r];
      } else {
        assert log'[r].key == KeyOf(cfg[x.i]);
      }
    }
  }

  /** Every kind of step keeps the invariant of every instance. */
  lemma StepKeepsNodeInv(cfg: Cluster, s: System, x: Label, j: nat)
    requires ValidCluster(cfg) && Inv(cfg, s) && Enabled(cfg, s, x) && j < |cfg|
    ensures NodeInv(cfg[j], Step(cfg, s, x), j)
  {
    if x.Expire? {
      ExpiryKeepsNodeInv(cfg, s, x.l, x.keys, j);
    } else if x.Tick? {
      UndisturbedKeepsNodeInv(cfg[j], s, Step(cfg, s, x), j);
    } else if j == x.i {
      OwnStepKeepsNodeInv(cfg, s, x);
    } else {
      OthersUndisturbed(cfg, s, x, j);
      UndisturbedKeepsNodeInv(cfg[j], s, Step(cfg, s, x), j);
    }
  }

  lemma StepKeepsShape(cfg: Cluster, s: System, x: Label)
    requires Inv(cfg, s) && Enabled(cfg, s, x)
    ensures |Step(cfg, s, x).nodes| == |cfg| && 0 !in Step(cfg, s, x).leases
  {
  }

  /** Every step of every instance and of the environment keeps the invariant. */
  lemma StepKeepsInv(cfg: Cluster, s: System, x: Label)
    requires ValidCluster(cfg) && Inv(cfg, s) && Enabled(cfg, s, x)
    ensures Inv(cfg, Step(cfg, s, x))
  {
    StepKeepsOwnPuts(cfg, s, x);
    StepKeepsShape(cfg, s, x);
    forall j | 0 <= j < |cfg|
      ensures NodeInv(cfg[j], Step(cfg, s, x), j)
    {
      StepKeepsNodeInv(cfg, s, x, j);
    }
  }

  lemma InitialInv(cfg: Cluster)
    ensures Inv(cfg, Initial(cfg))
  {
  }

  /** The invariant holds in every state of every run. */
  lemma {:induction false} RunKeepsInv(cfg: Cluster, s: System, run: seq<Label>)
    requires ValidCluster(cfg) && Inv(cfg, s) && ValidRun(cfg, s, run)
    ensures Inv(cfg, Exec(cfg, s, run))
    decreases |run|
  {
    if run != [] {
      StepKeepsInv(cfg, s, run[0]);
      RunKeepsInv(cfg, Step(cfg, s, run[0]), run[1..]);
    }
  }

  lemma ReachableInv(cfg: Cluster, run: seq<Label>)
    requires ValidCluster(cfg) && ValidRun(cfg, Initial(cfg), run)
    ensures Inv(cfg, Exec(cfg, Initial(cfg), run))
  {
    InitialInv(cfg);
    RunKeepsInv(cfg, Initial(cfg), run);
  }

  /** Expiry of a lease an instance no longer holds never removes its key, even if a put with that lease
      was reported as failed and yet applied. */
  lemma OldLeasesAreHarmless(cfg: Cluster, s: System, l: nat, keys: seq<string>, i: nat)
    requires ValidCluster(cfg) && Inv(cfg, s) && Enabled(cfg, s, Expire(l, keys)) && i < |cfg|
    requires s.nodes[i].flags.leaseID != 0 && s.nodes[i].flags.leaseID != l
    ensures KeyOf(cfg[i]) in Current(s.log) ==>
              KeyOf(cfg[i]) in Current(Step(cfg, s, Expire(l, keys)).log)
  {
    assert NodeInv(cfg[i], s, i);
    Append(s.log, Delete(keys));
  }

  /** A lease is bound to at most one key, so an expiry removes at most one. */
  lemma LeasesBindOneKey(cfg: Cluster, s: System, l: nat, keys: seq<string>)
    requires Inv(cfg, s) && BoundKeys(Current(s.log), l, keys)
    ensures forall a, b | a in keys && b in keys :: a == b
  {
    forall k | k in keys
      ensures exists i :: 0 <= i < |cfg| && k == KeyOf(cfg[i]) && Owns(s, i, l)
    {
      SnapshotsHoldOwnValues(cfg, s.log, |s.log|, k);
      var i :| 0 <= i < |cfg| && k == KeyOf(cfg[i]);
      assert NodeInv(cfg[i], s, i);
    }
  }

  /** Stored keys and values are those of the instances, in every snapshot. */
  lemma {:induction false} SnapshotsHoldOwnValues(cfg: Cluster, log: Log, r: nat, k: string)
    requires OwnPutsOnly(cfg, log) && r <= |log| && k in At(log, r)
    ensures exists i :: 0 <= i < |cfg| && k == KeyOf(cfg[i]) && At(log, r)[k].value == Encoded(cfg[i].info)
    decreases r
  {
    if log[r - 1].Put? && log[r - 1].key == k {
    } else {
      SnapshotsHoldOwnValues(cfg, log, r - 1, k);
    }
  }

  /** Instance keys never extend one another, in any snapshot. */
  lemma {:induction false} SnapshotsHaveNoExtensions(cfg: Cluster, log: Log, r: nat, i: nat)
    requires ValidCluster(cfg) && OwnPutsOnly(cfg, log) && r <= |log| && i < |cfg|
    ensures NoExtension(At(log, r), KeyOf(cfg[i]))
  {
    forall k | k in At(log, r) && KeyOf(cfg[i]) <= k
      ensures k == KeyOf(cfg[i])
    {
      SnapshotsHoldOwnValues(cfg, log, r, k);
      var j :| 0 <= j < |cfg| && k == KeyOf(cfg[j]);
    }
  }
}
