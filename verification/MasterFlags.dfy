/** What the master flags of all instances say: every set flag was earned, and on a quiet store they converge. */
module MasterFlags {
  import opened Etcd
  import opened Election
  import opened Registry
  import opened LeaseInvariant
  import opened Leadership

  /** The key of `c` had create revision `cr` in some snapshot. */
  ghost predicate WasSeen(c: Config, log: Log, cr: nat) {
    exists r :: 0 <= r <= |log| && KeyOf(c) in At(log, r) && At(log, r)[KeyOf(c)].createRev == cr
  }

  /** The key of `c` led its service in some snapshot. */
  ghost predicate HasLed(c: Config, log: Log) {
    exists r :: 0 <= r <= |log| && Leader(At(log, r), PathOf(c), KeyOf(c))
  }

  /** A sync in progress holds a create revision its own key really had, and a set flag stands for a snapshot
      the instance led. */
  ghost predicate Earned(c: Config, s: System, i: nat)
    requires i < |s.nodes|
  {
    var n := s.nodes[i];
    && (forall t | t in n.sync && n.sync[t].HasOwn? :: WasSeen(c, s.log, n.sync[t].cr))
    && (n.flags.master ==> HasLed(c, s.log))
  }

  lemma HistoryIsKept(c: Config, log: Log, log': Log, cr: nat)
    requires log <= log'
    ensures WasSeen(c, log, cr) ==> WasSeen(c, log', cr)
    ensures HasLed(c, log) ==> HasLed(c, log')
  {
    if r :| 0 <= r <= |log| && KeyOf(c) in At(log, r) && At(log, r)[KeyOf(c)].createRev == cr {
      GrownLogsKeepSnapshots(log, log', r);
    }
    if r :| 0 <= r <= |log| && Leader(At(log, r), PathOf(c), KeyOf(c)) {
      GrownLogsKeepSnapshots(log, log', r);
    }
  }

  /** The first read records a create revision its key has in the snapshot read. */
  lemma FirstReadIsTruthful(cfg: Cluster, log: Log, i: nat, rev: nat, reply: Reply)
    requires ValidCluster(cfg) && OwnPutsOnly(cfg, log) && i < |cfg| && rev <= |log|
    requires ReadsByKey(reply, At(log, rev), KeyOf(cfg[i])) && reply.Got? && reply.entries != []
    ensures KeyOf(cfg[i]) in At(log, rev) && At(log, rev)[KeyOf(cfg[i])].createRev == reply.entries[0].kv.createRev
  {
    SnapshotsHaveNoExtensions(cfg, log, rev, i);
    assert reply.entries[0].key == KeyOf(cfg[i]);
  }

  /** The second read says yes exactly for the leader of the snapshot it sees, if the key was not re-created since
      the first read. */
  lemma SecondReadIsTruthful(c: Config, log: Log, cr: nat, rev: nat, reply: Reply)
    requires WasSeen(c, log, cr) && rev <= |log|
    requires ReadsByCreate(reply, At(log, rev), PathOf(c)) && reply.Got?
    ensures Compare(cr, reply) == Yes <==>
              Leader(At(log, rev), PathOf(c), KeyOf(c)) && At(log, rev)[KeyOf(c)].createRev == cr
  {
    var r :| 0 <= r <= |log| && KeyOf(c) in At(log, r) && At(log, r)[KeyOf(c)].createRev == cr;
    CreateRevisionNamesItsPut(log, r, KeyOf(c));
    SecondReadDecides(log, PathOf(c), KeyOf(c), r, rev, reply.entries);
    assert reply.entries == [] ==> !Eligible(At(log, rev), PathOf(c), KeyOf(c));
  }

  lemma OwnSyncKeepsEarned(cfg: Cluster, s: System, x: Label)
    requires ValidCluster(cfg) && Inv(cfg, s) && Enabled(cfg, s, x) && (x.ReadOwn? || x.ReadAll?)
    requires Earned(cfg[x.i], s, x.i)
    ensures Earned(cfg[x.i], Step(cfg, s, x), x.i)
  {
    if x.ReadOwn? {
      if x.reply.Got? && x.reply.entries != [] {
        FirstReadIsTruthful(cfg, s.log, x.i, x.rev, x.reply);
      }
    } else if x.reply.Got? {
      SecondReadIsTruthful(cfg[x.i], s.log, s.nodes[x.i].sync[x.t].cr, x.rev, x.reply);
    }
  }

  lemma StepKeepsEarned(cfg: Cluster, s: System, x: Label, i: nat)
    requires ValidCluster(cfg) && Inv(cfg, s) && Enabled(cfg, s, x) && i < |cfg| && Earned(cfg[i], s, i)
    ensures Earned(cfg[i], Step(cfg, s, x), i)
  {
    if (x.ReadOwn? || x.ReadAll?) && x.i == i {
      OwnSyncKeepsEarned(cfg, s, x);
    } else {
      hide Step, Enabled;
      var s' := Step(cfg, s, x);
      StepsAreStoreSteps(cfg, s, x);
      OnlySyncChangesSync(cfg, s, x, i);
      forall cr
        ensures WasSeen(cfg[i], s.log, cr) ==> WasSeen(cfg[i], s'.log, cr)
      {
        HistoryIsKept(cfg[i], s.log, s'.log, cr);
      }
      HistoryIsKept(cfg[i], s.log, s'.log, 0);
    }
  }

  lemma OnlySyncChangesSync(cfg: Cluster, s: System, x: Label, i: nat)
    requires |s.nodes| == |cfg| && i < |cfg| && Enabled(cfg, s, x) && !((x.ReadOwn? || x.ReadAll?) && x.i == i)
    ensures var n, n' := s.nodes[i], Step(cfg, s, x).nodes[i];
            n'.sync == n.sync && n'.flags.master == n.flags.master
  {
    hide LogDelete, LogPut, Grants, SetDeadline, Revoke, Compare, Current, KeyOf, Enabled;
  }

  /** In every reachable state every set master flag was earned by leading some snapshot of the store. */
  lemma {:induction false} SetFlagsWereEarned(cfg: Cluster, s: System, run: seq<Label>, i: nat)
    requires ValidCluster(cfg) && Inv(cfg, s) && ValidRun(cfg, s, run) && i < |cfg| && Earned(cfg[i], s, i)
    ensures Earned(cfg[i], Exec(cfg, s, run), i)
    decreases |run|
  {
    if run != [] {
      StepKeepsInv(cfg, s, run[0]);
      StepKeepsEarned(cfg, s, run[0], i);
      SetFlagsWereEarned(cfg, Step(cfg, s, run[0]), run[1..], i);
    }
  }

  /** From the start: whoever has the flag set has led its service in some snapshot. */
  lemma WhoeverIsMasterHasLed(cfg: Cluster, run: seq<Label>, i: nat)
    requires ValidCluster(cfg) && ValidRun(cfg, Initial(cfg), run) && i < |cfg|
    requires Exec(cfg, Initial(cfg), run).nodes[i].flags.master
    ensures HasLed(cfg[i], Exec(cfg, Initial(cfg), run).log)
  {
    InitialInv(cfg);
    SetFlagsWereEarned(cfg, Initial(cfg), run, i);
  }

  /** In particular an instance that opts out of election never has its flag set. */
  lemma OptedOutInstancesNeverLead(cfg: Cluster, run: seq<Label>, i: nat)
    requires ValidCluster(cfg) && ValidRun(cfg, Initial(cfg), run) && i < |cfg| && cfg[i].info.disableElection
    ensures !Exec(cfg, Initial(cfg), run).nodes[i].flags.master
  {
    var end := Exec(cfg, Initial(cfg), run);
    InitialInv(cfg);
    ReachableInv(cfg, run);
    SetFlagsWereEarned(cfg, Initial(cfg), run, i);
    forall r | 0 <= r <= |end.log|
      ensures !Leader(At(end.log, r), PathOf(cfg[i]), KeyOf(cfg[i]))
    {
      if KeyOf(cfg[i]) in At(end.log, r) {
        SnapshotsHoldOwnValues(cfg, end.log, r, KeyOf(cfg[i]));
      }
    }
  }

  /** Instance `i` should lead by the current contents. */
  ghost predicate LeadsNow(cfg: Cluster, s: System, i: nat)
    requires i < |cfg|
  {
    Leader(Current(s.log), PathOf(cfg[i]), KeyOf(cfg[i]))
  }

  /** During the run the store does not change and every read is of the current contents. */
  ghost predicate Quiet(cfg: Cluster, s: System, run: seq<Label>)
    requires |s.nodes| == |cfg|
    decreases |run|
  {
    run != [] ==>
      && Step(cfg, s, run[0]).log == s.log
      && (run[0].ReadOwn? || run[0].ReadAll? ==> run[0].rev == |s.log|)
      && Quiet(cfg, Step(cfg, s, run[0]), run[1..])
  }

  /** A label with which instance `i` finishes a sync. */
  predicate Finishes(x: Label, i: nat) {
    x.ReadAll? && x.i == i && x.reply.Got? && x.reply.entries != []
  }

  predicate NeverFinishes(run: seq<Label>, i: nat) {
    forall x | x in run :: !Finishes(x, i)
  }

  /** The last sync `i` finishes in the run, at `p`, began in the run, at `q`. */
  predicate LastSyncBegan(run: seq<Label>, i: nat, q: nat, p: nat) {
    && q < p < |run| && run[q].ReadOwn? && run[q].i == i
    && Finishes(run[p], i) && run[p].t == run[q].t && NeverFinishes(run[p + 1..], i)
  }

  /** A sync of `i` in progress in goroutine `t` holds the current create revision of its key. */
  ghost predicate UpToDate(cfg: Cluster, s: System, i: nat, t: Task)
    requires i < |cfg| == |s.nodes|
  {
    t in s.nodes[i].sync && s.nodes[i].sync[t].HasOwn? ==>
      && KeyOf(cfg[i]) in Current(s.log)
      && Current(s.log)[KeyOf(cfg[i])].createRev == s.nodes[i].sync[t].cr
  }

  /** A quiet step leaves the flag alone unless it finishes a sync, and makes it right if that sync is up to date. A
      sync stays up to date, and is so whenever it has just begun. */
  lemma QuietStep(cfg: Cluster, s: System, x: Label, i: nat, t: Task)
    requires ValidCluster(cfg) && Inv(cfg, s) && Enabled(cfg, s, x) && i < |cfg|
    requires Step(cfg, s, x).log == s.log && (x.ReadOwn? || x.ReadAll? ==> x.rev == |s.log|)
    requires UpToDate(cfg, s, i, t) || (x.ReadOwn? && x.i == i && x.t == t)
    ensures UpToDate(cfg, Step(cfg, s, x), i, t)
    ensures !Finishes(x, i) ==> Step(cfg, s, x).nodes[i].flags.master == s.nodes[i].flags.master
    ensures Finishes(x, i) && x.t == t ==> Step(cfg, s, x).nodes[i].flags.master == LeadsNow(cfg, s, i)
  {
    if !((x.ReadOwn? || x.ReadAll?) && x.i == i) {
      OnlySyncChangesSync(cfg, s, x, i);
    } else if x.ReadOwn? {
      if x.reply.Got? && x.reply.entries != [] {
        FirstReadIsTruthful(cfg, s.log, i, x.rev, x.reply);
      }
    } else if x.reply.Got? && x.t == t {
      assert WasSeen(cfg[i], s.log, s.nodes[i].sync[t].cr);
      SecondReadIsTruthful(cfg[i], s.log, s.nodes[i].sync[t].cr, x.rev, x.reply);
    }
  }

  lemma {:induction false} WithoutFinishFlagStays(cfg: Cluster, s: System, run: seq<Label>, i: nat)
    requires |s.nodes| == |cfg| && i < |cfg| && ValidRun(cfg, s, run) && NeverFinishes(run, i)
    ensures Exec(cfg, s, run).nodes[i].flags.master == s.nodes[i].flags.master
    decreases |run|
  {
    if run != [] {
      var x := run[0];
      assert x in run && forall y | y in run[1..] :: y in run;
      if !((x.ReadOwn? || x.ReadAll?) && x.i == i) {
        OnlySyncChangesSync(cfg, s, x, i);
      }
      WithoutFinishFlagStays(cfg, Step(cfg, s, x), run[1..], i);
    }
  }

  lemma {:induction false} QuietStoreStays(cfg: Cluster, s: System, run: seq<Label>)
    requires |s.nodes| == |cfg| && Quiet(cfg, s, run)
    ensures Exec(cfg, s, run).log == s.log
    decreases |run|
  {
    if run != [] {
      QuietStoreStays(cfg, Step(cfg, s, run[0]), run[1..]);
    }
  }

  /** From a state in which the sync that finishes last is up to date. */
  lemma {:induction false} UpToDateSettles(cfg: Cluster, s: System, run: seq<Label>, i: nat, p: nat)
    requires ValidCluster(cfg) && Inv(cfg, s) && ValidRun(cfg, s, run) && Quiet(cfg, s, run)
    requires i < |cfg| && p < |run| && Finishes(run[p], i) && NeverFinishes(run[p + 1..], i)
    requires UpToDate(cfg, s, i, run[p].t)
    ensures Exec(cfg, s, run).nodes[i].flags.master == LeadsNow(cfg, s, i)
    decreases |run|
  {
    hide Step, Enabled;
    var s', rest := Step(cfg, s, run[0]), run[1..];
    QuietStep(cfg, s, run[0], i, run[p].t);
    StepKeepsInv(cfg, s, run[0]);
    if p == 0 {
      WithoutFinishFlagStays(cfg, s', rest, i);
    } else {
      assert rest[p - 1] == run[p] && rest[p..] == run[p + 1..];
      UpToDateSettles(cfg, s', rest, i, p - 1);
    }
  }

  /** On a quiet store the flag of `i` is right at the end if the last sync it finished began on the quiet store,
      whatever syncs were under way before. */
  lemma {:induction false} QuietRunSettles(cfg: Cluster, s: System, run: seq<Label>, i: nat, q: nat, p: nat)
    requires ValidCluster(cfg) && Inv(cfg, s) && ValidRun(cfg, s, run) && Quiet(cfg, s, run)
    requires i < |cfg| && LastSyncBegan(run, i, q, p)
    ensures Exec(cfg, s, run).log == s.log && Exec(cfg, s, run).nodes[i].flags.master == LeadsNow(cfg, s, i)
    decreases |run|
  {
    hide Step, Enabled;
    var s', rest := Step(cfg, s, run[0]), run[1..];
    QuietStoreStays(cfg, s, run);
    StepKeepsInv(cfg, s, run[0]);
    assert rest[p - 1] == run[p] && rest[p..] == run[p + 1..];
    if q == 0 {
      QuietStep(cfg, s, run[0], i, run[0].t);
      UpToDateSettles(cfg, s', rest, i, p - 1);
    } else {
      assert rest[q - 1] == run[q];
      QuietRunSettles(cfg, s', rest, i, q - 1, p - 1);
    }
  }

  /** Every instance whose key is stored finishes a sync, the last one being one that began in the run. */
  ghost predicate AllSync(cfg: Cluster, s: System, run: seq<Label>) {
    forall i | 0 <= i < |cfg| && KeyOf(cfg[i]) in Current(s.log) ::
      exists q: nat, p: nat :: LastSyncBegan(run, i, q, p)
  }

  /** The key of `i` is stored and `i` has not opted out. */
  predicate Willing(cfg: Cluster, c: Contents, i: nat)
    requires i < |cfg|
  {
    KeyOf(cfg[i]) in c && !cfg[i].info.disableElection
  }

  /** Of the instances under its service's path that have not opted out, `i` put its key first. */
  predicate CreatedFirst(cfg: Cluster, c: Contents, i: nat)
    requires i < |cfg|
  {
    && Willing(cfg, c, i)
    && forall j | 0 <= j < |cfg| && PathOf(cfg[i]) <= KeyOf(cfg[j]) && Willing(cfg, c, j) ::
         c[KeyOf(cfg[i])].createRev <= c[KeyOf(cfg[j])].createRev
  }

  /** What leading means among instances: only opting out excludes one. */
  lemma LeadsIffCreatedFirst(cfg: Cluster, s: System, i: nat)
    requires ValidCluster(cfg) && Inv(cfg, s) && i < |cfg|
    ensures LeadsNow(cfg, s, i) <==> CreatedFirst(cfg, Current(s.log), i)
  {
    var c, path := Current(s.log), PathOf(cfg[i]);
    assert path <= KeyOf(cfg[i]);
    forall j | 0 <= j < |cfg| && path <= KeyOf(cfg[j])
      ensures Eligible(c, path, KeyOf(cfg[j])) <==> Willing(cfg, c, j)
    {
      if KeyOf(cfg[j]) in c {
        StoredValueIsOwn(cfg, s.log, j);
      }
    }
    forall o | Eligible(c, path, o)
      ensures exists j :: 0 <= j < |cfg| && o == KeyOf(cfg[j])
    {
      SnapshotsHoldOwnValues(cfg, s.log, |s.log|, o);
    }
  }

  lemma StoredValueIsOwn(cfg: Cluster, log: Log, j: nat)
    requires ValidCluster(cfg) && OwnPutsOnly(cfg, log) && j < |cfg| && KeyOf(cfg[j]) in Current(log)
    ensures Current(log)[KeyOf(cfg[j])].value == Encoded(cfg[j].info)
  {
    SnapshotsHoldOwnValues(cfg, log, |log|, KeyOf(cfg[j]));
    var i :| 0 <= i < |cfg| && KeyOf(cfg[j]) == KeyOf(cfg[i])
             && Current(log)[KeyOf(cfg[j])].value == Encoded(cfg[i].info);
    assert i == j;
  }

  /** Convergence: once every registered instance has synced on a quiet store, exactly those registered instances have
      their flag set that put their key first among the ones of their service that have not opted out. No service has
      two, and each with an instance that has not opted out has one. */
  lemma FlagsConverge(cfg: Cluster, s: System, run: seq<Label>)
    requires ValidCluster(cfg) && Inv(cfg, s) && ValidRun(cfg, s, run) && Quiet(cfg, s, run) && AllSync(cfg, s, run)
    ensures forall i | 0 <= i < |cfg| && KeyOf(cfg[i]) in Current(s.log) ::
              Exec(cfg, s, run).nodes[i].flags.master <==> CreatedFirst(cfg, Current(s.log), i)
    ensures forall i, j | 0 <= i < |cfg| && 0 <= j < |cfg| && PathOf(cfg[i]) == PathOf(cfg[j])
                          && CreatedFirst(cfg, Current(s.log), i) && CreatedFirst(cfg, Current(s.log), j) :: i == j
    ensures forall i | 0 <= i < |cfg| && Willing(cfg, Current(s.log), i) ::
              exists j :: 0 <= j < |cfg| && Leader(Current(s.log), PathOf(cfg[i]), KeyOf(cfg[j]))
  {
    forall i | 0 <= i < |cfg|
      ensures LeadsNow(cfg, s, i) <==> CreatedFirst(cfg, Current(s.log), i)
    {
      LeadsIffCreatedFirst(cfg, s, i);
    }
    forall i | 0 <= i < |cfg| && KeyOf(cfg[i]) in Current(s.log)
      ensures Exec(cfg, s, run).nodes[i].flags.master <==> CreatedFirst(cfg, Current(s.log), i)
    {
      var q: nat, p: nat :| LastSyncBegan(run, i, q, p);
      QuietRunSettles(cfg, s, run, i, q, p);
    }
    forall i, j | 0 <= i < |cfg| && 0 <= j < |cfg| && PathOf(cfg[i]) == PathOf(cfg[j])
                  && LeadsNow(cfg, s, i) && LeadsNow(cfg, s, j)
      ensures i == j
    {
      LeaderIsUnique(s.log, |s.log|, PathOf(cfg[i]), KeyOf(cfg[i]), KeyOf(cfg[j]));
    }
    forall i | 0 <= i < |cfg| && Willing(cfg, Current(s.log), i)
      ensures exists j :: 0 <= j < |cfg| && Leader(Current(s.log), PathOf(cfg[i]), KeyOf(cfg[j]))
    {
      StoredValueIsOwn(cfg, s.log, i);
      var k := SomeLeader(Current(s.log), PathOf(cfg[i]), KeyOf(cfg[i]));
      SnapshotsHoldOwnValues(cfg, s.log, |s.log|, k);
    }
  }

  // ----- what an instance answers -----

  /** What `IsMaster` answers for the state of an instance. */
  predicate AnswersMaster(n: Node) {
    n.flags.master && !n.flags.disabled
  }

  /** A disabled instance answers as a slave through every run that does not enable it, whatever it syncs. */
  lemma {:induction false} DisabledNeverAnswersMaster(cfg: Cluster, s: System, run: seq<Label>, i: nat)
    requires |s.nodes| == |cfg| && i < |cfg| && ValidRun(cfg, s, run)
    requires s.nodes[i].flags.disabled && SetDisabled(i, false) !in run
    ensures !AnswersMaster(Exec(cfg, s, run).nodes[i])
    decreases |run|
  {
    if run != [] {
      var x := run[0];
      assert x in run && forall y | y in run[1..] :: y in run;
      DisabledFlagStays(cfg, s, x, i);
      DisabledNeverAnswersMaster(cfg, Step(cfg, s, x), run[1..], i);
    }
  }

  lemma DisabledFlagStays(cfg: Cluster, s: System, x: Label, i: nat)
    requires |s.nodes| == |cfg| && i < |cfg| && s.nodes[i].flags.disabled && x != SetDisabled(i, false)
    ensures Step(cfg, s, x).nodes[i].flags.disabled
  {
  }

  lemma EnablingShowsTheFlag(cfg: Cluster, s: System, i: nat)
    requires |s.nodes| == |cfg| && i < |cfg|
    ensures AnswersMaster(Step(cfg, s, SetDisabled(i, false)).nodes[i]) == s.nodes[i].flags.master
  {
  }

  /** Disabling does not stop the syncs: on a quiet store the instance answers as it should as soon as it is enabled
      again, with no further sync. */
  lemma EnabledAgainAnswersRight(cfg: Cluster, s: System, run: seq<Label>, i: nat, q: nat, p: nat)
    requires ValidCluster(cfg) && Inv(cfg, s) && ValidRun(cfg, s, run) && Quiet(cfg, s, run)
    requires i < |cfg| && LastSyncBegan(run, i, q, p)
    ensures AnswersMaster(Step(cfg, Exec(cfg, s, run), SetDisabled(i, false)).nodes[i]) <==> LeadsNow(cfg, s, i)
  {
    EnablingShowsTheFlag(cfg, Exec(cfg, s, run), i);
    QuietRunSettles(cfg, s, run, i, q, p);
  }
}
