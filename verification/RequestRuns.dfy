/** All interleavings of starting, refusing, finishing and cancelling requests (front/src/http/index.ts). */
module RequestRuns {
  import opened Collections
  import opened RequestQueues

  /** A request enters the queue; its failure is handled; its `finally` runs; requests are cancelled. */
  datatype Label = Start(r: Request) | Refuse(r: Request) | Finish(r: Request) | Cancel(target: Target)

  datatype State = State(queue: seq<Request>, inFlight: set<Request>, started: set<Request>)

  type Run = seq<Label>

  predicate Enabled(s: State, l: Label) {
    match l
    case Start(r) => r !in s.started
    case Refuse(r) => r in s.inFlight
    case Finish(r) => r in s.inFlight
    case Cancel(_) => true
  }

  function Step(s: State, l: Label): State {
    match l
    case Start(r) => State(s.queue + [r], s.inFlight + {r}, s.started + {r})
    case Refuse(r) => s.(queue := WithoutIds(s.queue, {r.requestId}))
    case Finish(r) => s.(queue := WithoutIds(s.queue, {r.requestId}), inFlight := s.inFlight - {r})
    case Cancel(target) => s.(queue := WithoutIds(s.queue, IdsOf(CancelQueue(s.queue, target))))
  }

  function Exec(run: Run): State {
    if run == [] then State([], {}, {}) else Step(Exec(run[..|run| - 1]), run[|run| - 1])
  }

  predicate ValidRun(run: Run) {
    run == [] || (ValidRun(run[..|run| - 1]) && Enabled(Exec(run[..|run| - 1]), run[|run| - 1]))
  }

  /** The labels that delete the requests of an id from the queue. */
  predicate Drops(l: Label, id: string) {
    match l
    case Start(_) => false
    case Refuse(r) => r.requestId == id
    case Finish(r) => r.requestId == id
    case Cancel(target) => Hits(target, id)
  }

  /** Label `k` starts `r`, and no later label deletes its id. */
  ghost predicate StartedAndKept(run: Run, k: nat, r: Request) {
    k < |run| && run[k] == Start(r) && forall j | k < j < |run| :: !Drops(run[j], r.requestId)
  }

  ghost predicate StartedUnfinished(run: Run, k: nat, r: Request) {
    k < |run| && run[k] == Start(r) && forall j | k < j < |run| :: run[j] != Finish(r)
  }

  lemma StepQueue(s: State, l: Label, r: Request)
    ensures r in Step(s, l).queue <==> l == Start(r) || (r in s.queue && !Drops(l, r.requestId))
  {
    match l {
      case Start(_) =>
      case Refuse(t) => WithoutMembers(s.queue, {t.requestId});
      case Finish(t) => WithoutMembers(s.queue, {t.requestId});
      case Cancel(target) => CancelLeavesTheOthers(s.queue, target);
    }
  }

  lemma {:induction false} StartedIsExact(run: Run, r: Request)
    requires ValidRun(run)
    ensures r in Exec(run).started <==> Start(r) in run
  {
    if run != [] {
      var init, last := run[..|run| - 1], run[|run| - 1];
      StartedIsExact(init, r);
      assert run == init + [last];
    }
  }

  /** A request is queued exactly when no label since its start has deleted its id. */
  lemma {:induction false} QueueIsExact(run: Run, r: Request)
    requires ValidRun(run)
    ensures r in Exec(run).queue <==> exists k: nat :: StartedAndKept(run, k, r)
  {
    hide Step, Drops;
    if run == [] {
      assert !exists k: nat :: StartedAndKept(run, k, r);
    } else {
      var init, last := run[..|run| - 1], run[|run| - 1];
      QueueIsExact(init, r);
      StepQueue(Exec(init), last, r);
      KeptStep(init, last, r);
      assert run == init + [last];
    }
  }

  lemma KeptStep(init: Run, last: Label, r: Request)
    ensures (exists k: nat :: StartedAndKept(init + [last], k, r)) <==>
            last == Start(r) || ((exists k: nat :: StartedAndKept(init, k, r)) && !Drops(last, r.requestId))
  {
    var run := init + [last];
    assert run[|init|] == last && forall j | 0 <= j < |init| :: run[j] == init[j];
    if k: nat :| StartedAndKept(run, k, r) {
      assert k < |init| ==> StartedAndKept(init, k, r) && !Drops(run[|init|], r.requestId);
    }
    if last == Start(r) {
      assert StartedAndKept(run, |init|, r);
    } else if k: nat :| StartedAndKept(init, k, r) && !Drops(last, r.requestId) {
      assert StartedAndKept(run, k, r);
    }
  }

  lemma QueuedAreStarted(run: Run, r: Request)
    requires ValidRun(run) && r in Exec(run).queue
    ensures r in Exec(run).started
  {
    QueueIsExact(run, r);
    StartedIsExact(run, r);
    var k: nat :| StartedAndKept(run, k, r);
    assert run[k] == Start(r);
  }

  lemma UnfinishedStep(init: Run, last: Label, r: Request)
    ensures (exists k: nat :: StartedUnfinished(init + [last], k, r)) <==>
              last == Start(r) || ((exists k: nat :: StartedUnfinished(init, k, r)) && last != Finish(r))
  {
    var run := init + [last];
    assert run[|init|] == last && forall j | 0 <= j < |init| :: run[j] == init[j];
    if k: nat :| StartedUnfinished(run, k, r) {
      assert k < |init| ==> StartedUnfinished(init, k, r) && run[|init|] != Finish(r);
    }
    if last == Start(r) {
      assert StartedUnfinished(run, |init|, r);
    } else if k: nat :| StartedUnfinished(init, k, r) && last != Finish(r) {
      assert StartedUnfinished(run, k, r);
    }
  }

  /** A request is in flight exactly when it has started and not finished since. */
  lemma {:induction false} InFlightIsExact(run: Run, r: Request)
    requires ValidRun(run)
    ensures r in Exec(run).inFlight <==> exists k: nat :: StartedUnfinished(run, k, r)
  {
    if run == [] {
      assert !exists k: nat :: StartedUnfinished(run, k, r);
    } else {
      var init, last := run[..|run| - 1], run[|run| - 1];
      InFlightIsExact(init, r);
      UnfinishedStep(init, last, r);
      assert run == init + [last];
    }
  }

  /** Every queued request is still in flight. */
  lemma QueuedAreInFlight(run: Run, r: Request)
    requires ValidRun(run) && r in Exec(run).queue
    ensures r in Exec(run).inFlight
  {
    QueueIsExact(run, r);
    InFlightIsExact(run, r);
    var k: nat :| StartedAndKept(run, k, r);
    assert forall j | k < j < |run| :: run[j] == Finish(r) ==> Drops(run[j], r.requestId);
    assert StartedUnfinished(run, k, r);
  }

  lemma {:induction false} WithoutStaysDistinct(queue: seq<Request>, ids: set<string>)
    requires NoDuplicates(queue)
    ensures NoDuplicates(WithoutIds(queue, ids))
  {
    if queue != [] {
      var init, last := queue[..|queue| - 1], queue[|queue| - 1];
      WithoutStaysDistinct(init, ids);
      WithoutMembers(init, ids);
      assert last !in init;
    }
  }

  /** No request is queued twice, so a cancel by distinct ids calls each executor once. */
  lemma {:induction false} QueueIsDistinct(run: Run)
    requires ValidRun(run)
    ensures NoDuplicates(Exec(run).queue)
  {
    if run != [] {
      var init, last := run[..|run| - 1], run[|run| - 1];
      QueueIsDistinct(init);
      var s := Exec(init);
      match last {
        case Start(r) =>
          forall q | q in s.queue ensures q in s.started {
            QueuedAreStarted(init, q);
          }
          assert forall i | 0 <= i < |s.queue| :: s.queue[i] in s.queue && s.queue[i] != r;
        case Refuse(r) => WithoutStaysDistinct(s.queue, {r.requestId});
        case Finish(r) => WithoutStaysDistinct(s.queue, {r.requestId});
        case Cancel(target) => WithoutStaysDistinct(s.queue, IdsOf(CancelQueue(s.queue, target)));
      }
    }
  }

  lemma CancelReachesTheQueuedOnce(run: Run, target: Target, r: Request)
    requires ValidRun(run) && (target.Ids? ==> NoDuplicates(target.ids))
    ensures multiset(CancelQueue(Exec(run).queue, target))[r] ==
            if Hits(target, r.requestId) && exists k: nat :: StartedAndKept(run, k, r) then 1 else 0
    ensures r in Exec(run + [Cancel(target)]).queue ==> !Hits(target, r.requestId)
  {
    QueueIsDistinct(run);
    QueueIsExact(run, r);
    CancelledOnce(Exec(run).queue, target, r);
    assert (run + [Cancel(target)])[..|run|] == run;
    StepQueue(Exec(run), Cancel(target), r);
  }

  // ----- requests that share an id -----

  /** Requests of one id never overlap: a start finds no request of its id in flight. */
  ghost predicate NoOverlap(run: Run) {
    forall n | 0 <= n < |run| && run[n].Start? ::
      forall t | t in Exec(run[..n]).inFlight :: t.requestId != run[n].r.requestId
  }

  /** The labels that concern `r` itself. */
  predicate Ends(l: Label, r: Request) {
    l == Refuse(r) || l == Finish(r) || (l.Cancel? && Hits(l.target, r.requestId))
  }

  lemma {:induction false} OneInFlightPerId(run: Run, r: Request, t: Request)
    requires ValidRun(run) && NoOverlap(run)
    requires r in Exec(run).inFlight && t in Exec(run).inFlight && r.requestId == t.requestId
    ensures r == t
  {
    var init, last := run[..|run| - 1], run[|run| - 1];
    assert forall n | 0 <= n < |run| :: run[..n] == init[..n];
    assert forall n | 0 <= n < |init| :: run[n] == init[n];
    if r in Exec(init).inFlight && t in Exec(init).inFlight {
      OneInFlightPerId(init, r, t);
    } else {
      assert run[..|run| - 1] == init && (last == Start(r) || last == Start(t));
    }
  }

  lemma DropIsOwn(run: Run, k: nat, j: nat, r: Request)
    requires ValidRun(run) && NoOverlap(run) && StartedUnfinished(run, k, r)
    requires k < j < |run| && Drops(run[j], r.requestId)
    ensures Ends(run[j], r)
  {
    if !run[j].Cancel? {
      PrefixIsValid(run, j);
      PrefixHasNoOverlap(run, j);
      StillInFlight(run, k, j, r);
      OneInFlightPerId(run[..j], r, run[j].r);
    }
  }

  lemma PrefixHasNoOverlap(run: Run, j: nat)
    requires NoOverlap(run) && j <= |run|
    ensures NoOverlap(run[..j])
  {
    assert forall n | 0 <= n < j :: run[..j][..n] == run[..n] && run[..j][n] == run[n];
  }

  lemma StillInFlight(run: Run, k: nat, j: nat, r: Request)
    requires k < j <= |run| && ValidRun(run[..j]) && StartedUnfinished(run, k, r)
    ensures r in Exec(run[..j]).inFlight
  {
    InFlightIsExact(run[..j], r);
    assert StartedUnfinished(run[..j], k, r);
  }

  /** Without overlaps a request in flight leaves the queue only by a cancel or its own refusal. */
  lemma {:induction false} AloneOnlyOwnEndsCount(run: Run, r: Request)
    requires ValidRun(run) && NoOverlap(run) && r in Exec(run).inFlight
    ensures r in Exec(run).queue <==>
            exists k :: 0 <= k < |run| && run[k] == Start(r) && forall j | k < j < |run| :: !Ends(run[j], r)
  {
    QueueIsExact(run, r);
    InFlightIsExact(run, r);
    var k: nat :| StartedUnfinished(run, k, r);
    forall j | k < j < |run| && Drops(run[j], r.requestId) ensures Ends(run[j], r) {
      DropIsOwn(run, k, j, r);
    }
    StartsOnce(run, r);
    if m :| 0 <= m < |run| && run[m] == Start(r) && forall j | m < j < |run| :: !Ends(run[j], r) {
      assert m == k && StartedAndKept(run, k, r);
    }
    assert forall j | k < j < |run| && Ends(run[j], r) :: Drops(run[j], r.requestId);
  }

  lemma {:induction false} PrefixIsValid(run: Run, n: nat)
    requires ValidRun(run) && n < |run|
    ensures ValidRun(run[..n]) && Enabled(Exec(run[..n]), run[n])
  {
    if n < |run| - 1 {
      PrefixIsValid(run[..|run| - 1], n);
      assert run[..|run| - 1][..n] == run[..n];
    }
  }

  lemma StartsOnce(run: Run, r: Request)
    requires ValidRun(run)
    ensures forall m, k | 0 <= m < |run| && 0 <= k < |run| && run[m] == Start(r) && run[k] == Start(r) :: m == k
  {
    forall m, k | 0 <= m < k < |run| && run[k] == Start(r) ensures run[m] != Start(r) {
      PrefixIsValid(run, k);
      StartedIsExact(run[..k], r);
      assert run[..k][m] == run[m];
    }
  }

  lemma {:induction false} RunStep(run: Run, l: Label)
    ensures ValidRun(run + [l]) <==> ValidRun(run) && Enabled(Exec(run), l)
    ensures Exec(run + [l]) == Step(Exec(run), l)
  {
    assert (run + [l])[..|run|] == run;
  }

  /** A start beside a request in flight: when the earlier one finishes, the new one stays queued if and only if their
      ids differ. It is in flight either way, and nobody has cancelled or refused it. */
  lemma NewRequestSurvivesIff(run: Run, r: Request, t: Request)
    requires ValidRun(run) && t in Exec(run).inFlight && r !in Exec(run).started
    ensures var after := run + [Start(r)] + [Finish(t)];
            && ValidRun(after) && r in Exec(after).inFlight
            && (r in Exec(after).queue <==> t.requestId != r.requestId)
  {
    InFlightIsExact(run, t);
    StartedIsExact(run, t);
    RunStep(run, Start(r));
    RunStep(run + [Start(r)], Finish(t));
    StepQueue(Exec(run), Start(r), r);
    StepQueue(Exec(run + [Start(r)]), Finish(t), r);
  }

  /** With an overlap the earlier request takes the later one off the queue when it finishes, though nobody cancelled
      or refused the later one: a cancel of their id then no longer reaches it. */
  lemma FinishingDropsTheNewerRequest(first: Request, newer: Request) returns (run: Run)
    requires first != newer && first.requestId == newer.requestId
    ensures ValidRun(run) && newer in Exec(run).inFlight && newer !in Exec(run).queue
    ensures forall l | l in run :: !Ends(l, newer)
    ensures newer !in CancelQueue(Exec(run).queue, Id(newer.requestId))
  {
    run := [Start(first), Start(newer), Finish(first)];
    assert run[..2] == [Start(first)] + [Start(newer)] && run == run[..2] + [Finish(first)];
    RunStep([], Start(first));
    RunStep([Start(first)], Start(newer));
    RunStep(run[..2], Finish(first));
    assert [] + [Start(first)] == [Start(first)];
    StepQueue(Exec(run[..2]), Finish(first), newer);
    WithIdMembers(Exec(run).queue, newer.requestId);
  }
}
