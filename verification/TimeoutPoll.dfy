/** Polling with a timer: an asynchronous loop driven by resume, pause, reset, timers and finished calls
    (front/src/hooks/use-timeout-poll.ts). */
module TimeoutPoll {
  import opened Collections

  /** `max == -1` means no limit. */
  datatype Options = Options(immediate: bool, max: int)

  /** The captured variables, together with what the runtime keeps: armed timers and calls of `fn` being awaited. */
  datatype State = State(isActive: bool, timer: Option<nat>, times: nat, armed: set<nat>, nextTimer: nat, awaited: nat)

  datatype Label = Fire(t: nat) | FnDone | FnFailed | Resume | Pause | Reset

  predicate UnderMax(o: Options, times: nat) {
    !(o.max != -1 && times >= o.max)
  }

  function Cleared(s: State): State {
    if s.timer.Some? then s.(timer := None, armed := s.armed - {s.timer.value}) else s
  }

  function Started(s: State): State {
    var c := Cleared(s);
    c.(timer := Some(c.nextTimer), armed := c.armed + {c.nextTimer}, nextTimer := c.nextTimer + 1)
  }

  /** The loop up to its await. */
  function Looped(o: Options, s: State): State {
    if s.isActive && UnderMax(o, s.times) then s.(times := s.times + 1, awaited := s.awaited + 1) else s
  }

  function Resumed(o: Options, s: State): State {
    if s.isActive then s
    else
      var active := s.(isActive := true);
      if o.immediate then Looped(o, active) else Started(active)
  }

  predicate Enabled(s: State, l: Label) {
    match l
    case Fire(t) => t in s.armed
    case FnDone => s.awaited > 0
    case FnFailed => s.awaited > 0
    case _ => true
  }

  /** A timer callback clears the handle and runs the loop; a finished call starts a timer, a failed one does not. */
  function Step(o: Options, s: State, l: Label): State {
    if !Enabled(s, l) then s
    else match l
    case Fire(t) => Looped(o, s.(armed := s.armed - {t}, timer := None))
    case FnDone => Started(s.(awaited := s.awaited - 1))
    case FnFailed => s.(awaited := s.awaited - 1)
    case Resume => Resumed(o, s)
    case Pause => s.(isActive := false)
    case Reset => Cleared(s).(isActive := false, times := 0)
  }

  function Initial(o: Options): State {
    var s := State(false, None, 0, {}, 0, 0);
    if o.immediate then Resumed(o, s) else s
  }

  // ----- the hook -----

  class Poll {
    const options: Options
    var isActive: bool
    var timer: Option<nat>
    var times: nat
    var armed: set<nat>
    var nextTimer: nat
    var awaited: nat

    function View(): State
      reads this
    {
      State(isActive, timer, times, armed, nextTimer, awaited)
    }

    constructor (o: Options)
      ensures options == o && View() == Initial(o)
    {
      options := o;
      isActive, timer, times := false, None, 0;
      armed, nextTimer, awaited := {}, 0, 0;
      new;
      if o.immediate {
        ResumeIt();
      }
    }

    method Clear()
      modifies this
      ensures View() == Cleared(old(View()))
    {
      if timer.Some? {
        armed := armed - {timer.value};
        timer := None;
      }
    }

    method StartTimer()
      modifies this
      ensures View() == Started(old(View()))
    {
      Clear();
      timer := Some(nextTimer);
      armed := armed + {nextTimer};
      nextTimer := nextTimer + 1;
    }

    method Loop()
      modifies this
      ensures View() == Looped(options, old(View()))
    {
      if !isActive {
        return;
      }
      if options.max != -1 && times >= options.max {
        return;
      }
      times := times + 1;
      awaited := awaited + 1;
    }

    /** The callback of an armed timer. */
    method TimerFires(t: nat)
      requires t in armed
      modifies this
      ensures View() == Step(options, old(View()), Fire(t))
      ensures awaited == old(awaited) + (if isActive && (options.max == -1 || old(times) < options.max) then 1 else 0)
    {
      armed := armed - {t};
      timer := None;
      Loop();
    }

    /** The loop goes on after its await. */
    method CallEnds(ok: bool)
      requires awaited > 0
      modifies this
      ensures View() == Step(options, old(View()), if ok then FnDone else FnFailed)
      ensures ok && OneTimer(old(View())) ==> timer.Some? && armed == {timer.value}
    {
      awaited := awaited - 1;
      if ok {
        StartTimer();
      }
    }

    method ResumeIt()
      modifies this
      ensures View() == Step(options, old(View()), Resume)
      ensures isActive && (old(isActive) ==> View() == old(View()))
      ensures !old(isActive) && !options.immediate ==> awaited == old(awaited) && timer.Some? && timer.value in armed
      ensures !old(isActive) && options.immediate && (options.max == -1 || old(times) < options.max) ==>
                awaited == old(awaited) + 1 && armed == old(armed)
    {
      if !isActive {
        isActive := true;
        if options.immediate {
          Loop();
        } else {
          StartTimer();
        }
      }
    }

    method PauseIt()
      modifies this
      ensures View() == Step(options, old(View()), Pause)
      ensures !isActive && timer == old(timer) && times == old(times) && armed == old(armed) && awaited == old(awaited)
    {
      isActive := false;
    }

    method ResetIt()
      modifies this
      ensures View() == Step(options, old(View()), Reset)
      ensures !isActive && times == 0 && (OneTimer(old(View())) ==> armed == {})
    {
      Clear();
      isActive := false;
      times := 0;
    }
  }

  // ----- runs -----

  type Run = seq<Label>

  predicate ValidRun(o: Options, run: Run) {
    run == [] || (ValidRun(o, run[..|run| - 1]) && Enabled(Exec(o, run[..|run| - 1]), run[|run| - 1]))
  }

  function Exec(o: Options, run: Run): State {
    if run == [] then Initial(o) else Step(o, Exec(o, run[..|run| - 1]), run[|run| - 1])
  }

  /** The number of calls of `fn` a step starts, seen from outside: calls newly awaited. */
  function CallsBy(s: State, next: State): nat {
    if next.awaited > s.awaited then next.awaited - s.awaited else 0
  }

  /** Calls of `fn` begun since the last reset, counted over the run. */
  function CallsSinceReset(o: Options, run: Run): nat {
    if run == [] then Initial(o).awaited
    else if run[|run| - 1] == Reset then 0
    else
      var init := run[..|run| - 1];
      CallsSinceReset(o, init) + CallsBy(Exec(o, init), Exec(o, run))
  }

  /** The armed timers are the one the handle names, if it names one. */
  predicate OneTimer(s: State) {
    s.armed == (if s.timer.Some? then {s.timer.value} else {})
  }

  /** At most one timer is armed, and it is the one that would be cleared. */
  lemma {:induction false} AtMostOneTimer(o: Options, run: Run)
    requires ValidRun(o, run)
    ensures OneTimer(Exec(o, run)) && |Exec(o, run).armed| <= 1
  {
    if run != [] {
      AtMostOneTimer(o, run[..|run| - 1]);
      StepKeepsOneTimer(o, Exec(o, run[..|run| - 1]), run[|run| - 1]);
    }
  }

  lemma StepKeepsOneTimer(o: Options, s: State, l: Label)
    requires OneTimer(s)
    ensures OneTimer(Step(o, s, l))
  {
    assert Cleared(s).armed == {};
    assert forall t | t in s.armed :: s.armed - {t} == {};
  }

  /** A reset disarms the timer; only calls already running are left. */
  lemma ResetLeavesNothingArmed(o: Options, run: Run)
    requires ValidRun(o, run)
    ensures var s := Exec(o, run + [Reset]);
            && ValidRun(o, run + [Reset])
            && s.armed == {} && s.timer == None && !s.isActive && s.awaited == Exec(o, run).awaited
  {
    AtMostOneTimer(o, run);
    RunUnfolds(o, run, Reset);
  }

  /** The counter is the number of calls begun since the last reset, and stays within the limit. */
  lemma {:induction false} TimesCountsTheCalls(o: Options, run: Run)
    requires ValidRun(o, run)
    ensures Exec(o, run).times == CallsSinceReset(o, run)
    ensures o.max >= 0 ==> CallsSinceReset(o, run) <= o.max
    ensures o.max < -1 ==> CallsSinceReset(o, run) == 0
  {
    if run != [] {
      TimesCountsTheCalls(o, run[..|run| - 1]);
    }
  }

  predicate Stops(l: Label) {
    l == Pause || l == Reset
  }

  /** The poll was resumed, or created running, and nothing has stopped it since. */
  ghost predicate Running(o: Options, run: Run) {
    (o.immediate && forall l | l in run :: !Stops(l))
    || exists k | 0 <= k < |run| :: run[k] == Resume && forall j | k < j < |run| :: !Stops(run[j])
  }

  lemma {:induction false} ActiveMeansRunning(o: Options, run: Run)
    requires ValidRun(o, run)
    ensures Exec(o, run).isActive <==> Running(o, run)
  {
    if run != [] {
      var init, last := run[..|run| - 1], run[|run| - 1];
      ActiveMeansRunning(o, init);
      RunningStep(o, init, last);
      assert run == init + [last];
    }
  }

  lemma RunningStep(o: Options, init: Run, last: Label)
    ensures Running(o, init + [last]) <==> last == Resume || (Running(o, init) && !Stops(last))
  {
    var run := init + [last];
    assert run[|init|] == last && forall j | 0 <= j < |init| :: run[j] == init[j];
    if k :| 0 <= k < |run| && run[k] == Resume && forall j | k < j < |run| :: !Stops(run[j]) {
      assert k < |init| ==> init[k] == Resume && !Stops(run[|init|]) && forall j | k < j < |init| :: !Stops(init[j]);
    }
    if k :| 0 <= k < |init| && init[k] == Resume && forall j | k < j < |init| :: !Stops(init[j]) {
      assert run[k] == Resume;
    }
    assert (forall l | l in run :: !Stops(l)) <==> (forall l | l in init :: !Stops(l)) && !Stops(last);
  }

  /** No call begins between a pause or reset and the next resume. */
  lemma CallsBeginOnlyWhileRunning(o: Options, run: Run)
    requires ValidRun(o, run) && run != []
    requires Exec(o, run).awaited > Exec(o, run[..|run| - 1]).awaited
    ensures Running(o, run)
  {
    ActiveMeansRunning(o, run);
  }

  // ----- does it keep going? -----

  predicate Alive(s: State) {
    s.armed != {} || s.awaited > 0
  }

  /** After `n` calls at least one more is within the limit; -1 is no limit. */
  predicate Room(o: Options, n: nat) {
    o.max == -1 || n < o.max
  }

  lemma RoomIsUnderMax(o: Options, run: Run)
    requires ValidRun(o, run)
    ensures Room(o, CallsSinceReset(o, run)) <==> UnderMax(o, Exec(o, run).times)
  {
    TimesCountsTheCalls(o, run);
  }

  /** While running, with calls left and without a failed call, there is always a timer armed or a call awaited. */
  lemma PollingGoesOn(o: Options, run: Run)
    requires ValidRun(o, run) && FnFailed !in run
    ensures Exec(o, run).isActive && (o.max == -1 || CallsSinceReset(o, run) < o.max) ==>
              Exec(o, run).armed != {} || Exec(o, run).awaited > 0
  {
    RoomIsUnderMax(o, run);
    BelowTheLimitPollingGoesOn(o, run);
  }

  lemma {:induction false} BelowTheLimitPollingGoesOn(o: Options, run: Run)
    requires ValidRun(o, run) && FnFailed !in run
    ensures Exec(o, run).isActive && UnderMax(o, Exec(o, run).times) ==> Alive(Exec(o, run))
  {
    if run != [] {
      var init, last := run[..|run| - 1], run[|run| - 1];
      assert last in run && forall l | l in init :: l in run;
      BelowTheLimitPollingGoesOn(o, init);
    }
  }

  /** With calls left, a timer that fires on an active poll begins one. */
  lemma FiringBeginsACall(o: Options, run: Run, t: nat)
    requires ValidRun(o, run) && t in Exec(o, run).armed && Exec(o, run).isActive
    ensures ValidRun(o, run + [Fire(t)])
    ensures CallsSinceReset(o, run + [Fire(t)]) ==
            CallsSinceReset(o, run) + (if o.max == -1 || CallsSinceReset(o, run) < o.max then 1 else 0)
  {
    RoomIsUnderMax(o, run);
    RunUnfolds(o, run, Fire(t));
    assert (run + [Fire(t)])[..|run|] == run;
  }

  /** Once nothing is armed or awaited, an active poll does nothing more: resuming it has no effect until it is paused
      or reset. */
  lemma {:induction false} StuckUntilStopped(o: Options, run: Run, more: Run)
    requires ValidRun(o, run + more)
    requires Exec(o, run).isActive && !Alive(Exec(o, run))
    requires forall l | l in more :: !Stops(l)
    ensures Exec(o, run + more) == Exec(o, run)
  {
    if more == [] {
      assert run + more == run;
    } else {
      var init, last := more[..|more| - 1], more[|more| - 1];
      assert last in more && forall l | l in init :: l in more;
      assert run + more == (run + init) + [last];
      RunUnfolds(o, run + init, last);
      StuckUntilStopped(o, run, init);
      StuckStep(o, Exec(o, run), last);
    }
  }

  lemma StuckStep(o: Options, s: State, l: Label)
    requires s.isActive && !Alive(s) && !Stops(l)
    ensures Step(o, s, l) == s
  {
  }

  lemma {:induction false} RunUnfolds(o: Options, run: Run, l: Label)
    ensures ValidRun(o, run + [l]) <==> ValidRun(o, run) && Enabled(Exec(o, run), l)
    ensures Exec(o, run + [l]) == Step(o, Exec(o, run), l)
  {
    assert (run + [l])[..|run|] == run;
  }

  // ----- overlapping calls -----

  /** A resume could lead to one call beside another: a call is awaited, or a timer armed while resuming calls at
      once, and the limit leaves room for the second call. */
  predicate EnoughLeft(o: Options, s: State) {
    Room(o, s.times) && (s.awaited > 0 || (o.immediate && s.armed != {} && Room(o, s.times + 1)))
  }

  /** No resume that has an effect leaves enough. */
  predicate HarmlessResumes(o: Options, run: Run) {
    run == [] ||
    var s := Exec(o, run[..|run| - 1]);
    HarmlessResumes(o, run[..|run| - 1]) && (run[|run| - 1] == Resume && !s.isActive ==> !EnoughLeft(o, s))
  }

  /** Then calls never overlap, and below the limit no timer is armed during a call. */
  lemma {:induction false} CallsDoNotOverlap(o: Options, run: Run)
    requires ValidRun(o, run) && HarmlessResumes(o, run)
    ensures var s := Exec(o, run); s.awaited <= 1 && (s.awaited + |s.armed| <= 1 || !Room(o, s.times))
  {
    AtMostOneTimer(o, run);
    if run != [] {
      AtMostOneTimer(o, run[..|run| - 1]);
      CallsDoNotOverlap(o, run[..|run| - 1]);
    }
  }

  /** Any other resume that has an effect can end in overlapping calls: with a call still awaited, or with the timer
      from before the pause still armed. */
  lemma UnquietResumeOverlaps(o: Options, run: Run) returns (more: Run)
    requires ValidRun(o, run) && !Exec(o, run).isActive && EnoughLeft(o, Exec(o, run))
    ensures more != [] && more[0] == Resume && Resume !in more[1..]
    ensures ValidRun(o, run + more) && Exec(o, run + more).awaited >= 2
  {
    AtMostOneTimer(o, run);
    var s := Exec(o, run);
    if s.awaited > 0 && o.immediate {
      RunUnfolds(o, run, Resume);
      more := [Resume];
    } else {
      var t := TimerAfterResume(o, s);
      TwoMore(o, run, Resume, Fire(t));
      more := [Resume, Fire(t)];
    }
  }

  /** Steps other than resumes keep a run harmless. */
  lemma {:induction false} StaysHarmless(o: Options, run: Run, more: Run)
    requires HarmlessResumes(o, run) && Resume !in more
    ensures HarmlessResumes(o, run + more)
  {
    if more == [] {
      assert run + more == run;
    } else {
      var init, last := more[..|more| - 1], more[|more| - 1];
      assert last in more && forall l | l in init :: l in more;
      assert (run + more)[..|run + more| - 1] == run + init;
      StaysHarmless(o, run, init);
    }
  }

  /** Once resumed after a harmless run, calls stay apart up to the next resume, whatever happens, if and only if this
      resume did not leave enough. */
  lemma ResumeIsHarmlessIff(o: Options, run: Run)
    requires ValidRun(o, run) && HarmlessResumes(o, run) && !Exec(o, run).isActive
    ensures !EnoughLeft(o, Exec(o, run)) <==>
              forall more | Resume !in more && ValidRun(o, run + [Resume] + more) ::
                Exec(o, run + [Resume] + more).awaited <= 1
  {
    if EnoughLeft(o, Exec(o, run)) {
      var more := UnquietResumeOverlaps(o, run);
      assert run + more == run + [Resume] + more[1..];
    } else {
      assert (run + [Resume])[..|run|] == run;
      forall more | Resume !in more && ValidRun(o, run + [Resume] + more)
        ensures Exec(o, run + [Resume] + more).awaited <= 1
      {
        StaysHarmless(o, run + [Resume], more);
        CallsDoNotOverlap(o, run + [Resume] + more);
      }
    }
  }

  lemma TwoMore(o: Options, run: Run, x: Label, y: Label)
    requires ValidRun(o, run) && Enabled(Exec(o, run), x) && Enabled(Step(o, Exec(o, run), x), y)
    ensures ValidRun(o, run + [x, y]) && Exec(o, run + [x, y]) == Step(o, Step(o, Exec(o, run), x), y)
  {
    RunUnfolds(o, run, x);
    RunUnfolds(o, run + [x], y);
    assert run + [x, y] == run + [x] + [y];
  }

  /** After such a resume a timer is armed whose callback begins a call beside a running one. */
  lemma TimerAfterResume(o: Options, s: State) returns (t: nat)
    requires OneTimer(s) && !s.isActive && UnderMax(o, s.times)
    requires if o.immediate then s.armed != {} && UnderMax(o, s.times + 1) else s.awaited > 0
    ensures var resumed := Step(o, s, Resume);
            Enabled(resumed, Fire(t)) && Step(o, resumed, Fire(t)).awaited >= 2
  {
    t := Step(o, s, Resume).timer.value;
  }

  // ----- getting stuck -----

  /** Every resume that has an effect finds no call awaited and, when it calls at once, no timer armed. */
  predicate QuietResumes(o: Options, run: Run) {
    run == [] ||
    var s := Exec(o, run[..|run| - 1]);
    QuietResumes(o, run[..|run| - 1]) &&
    (run[|run| - 1] == Resume && !s.isActive ==> s.awaited == 0 && (o.immediate ==> s.armed == {}))
  }

  lemma {:induction false} QuietResumesLeaveOneThing(o: Options, run: Run)
    requires ValidRun(o, run) && QuietResumes(o, run)
    ensures Exec(o, run).awaited + |Exec(o, run).armed| <= 1
  {
    AtMostOneTimer(o, run);
    if run != [] {
      AtMostOneTimer(o, run[..|run| - 1]);
      QuietResumesLeaveOneThing(o, run[..|run| - 1]);
    }
  }

  /** After such resumes one failed call of a running poll is enough to get stuck, however many are left. */
  lemma AFailedCallStopsPolling(o: Options, run: Run)
    requires ValidRun(o, run) && QuietResumes(o, run)
    requires Exec(o, run).isActive && Exec(o, run).awaited > 0
    ensures var failed := run + [FnFailed];
            ValidRun(o, failed) && Exec(o, failed).isActive && !Alive(Exec(o, failed))
  {
    QuietResumesLeaveOneThing(o, run);
    RunUnfolds(o, run, FnFailed);
  }

  /** Active and below the limit, yet nothing will happen. */
  predicate Stuck(o: Options, s: State) {
    s.isActive && UnderMax(o, s.times) && !Alive(s)
  }

  /** The only call fails with no timer armed. */
  predicate LosesTheLoop(o: Options, s: State, l: Label) {
    l == FnFailed && s.isActive && UnderMax(o, s.times) && s.awaited == 1 && s.armed == {}
  }

  lemma StuckAfterStepIff(o: Options, s: State, l: Label)
    requires Enabled(s, l)
    ensures Stuck(o, Step(o, s, l)) <==> LosesTheLoop(o, s, l) || (Stuck(o, s) && !Stops(l))
  {
    if Stuck(o, s) && !Stops(l) {
      StuckStep(o, s, l);
    } else if l.FnFailed? {
      assert !Alive(Step(o, s, l)) <==> s.awaited == 1 && s.armed == {};
    }
  }

  /** The loop was lost at step `k` and nothing has stopped the poll since. */
  ghost predicate LostAt(o: Options, run: Run, k: nat)
    requires k < |run|
  {
    LosesTheLoop(o, Exec(o, run[..k]), run[k]) && forall j | k < j < |run| :: !Stops(run[j])
  }

  /** At step `k` the only running call failed, with no timer armed and calls left, and nothing has stopped the poll
      since. */
  ghost predicate OnlyCallFailed(o: Options, run: Run, k: nat)
    requires k < |run|
  {
    var s := Exec(o, run[..k]);
    && run[k] == FnFailed && s.isActive && s.awaited == 1 && s.armed == {}
    && (o.max == -1 || CallsSinceReset(o, run[..k]) < o.max)
    && forall j | k < j < |run| :: run[j] != Pause && run[j] != Reset
  }

  lemma {:induction false} PrefixIsValid(o: Options, run: Run, k: nat)
    requires ValidRun(o, run) && k <= |run|
    ensures ValidRun(o, run[..k])
  {
    if k < |run| {
      PrefixIsValid(o, run[..|run| - 1], k);
      assert run[..|run| - 1][..k] == run[..k];
    } else {
      assert run[..k] == run;
    }
  }

  /** A poll is stuck, active with calls left yet with nothing armed or awaited, exactly when at some step its only
      running call failed with no timer armed and calls left, and nothing has stopped it since. */
  lemma StuckIff(o: Options, run: Run)
    requires ValidRun(o, run)
    ensures var s := Exec(o, run);
            s.isActive && (o.max == -1 || CallsSinceReset(o, run) < o.max) && s.armed == {} && s.awaited == 0 <==>
              exists k: nat :: k < |run| && OnlyCallFailed(o, run, k)
  {
    RoomIsUnderMax(o, run);
    StuckIffLost(o, run);
    forall k: nat | k < |run|
      ensures OnlyCallFailed(o, run, k) <==> LostAt(o, run, k)
    {
      PrefixIsValid(o, run, k);
      RoomIsUnderMax(o, run[..k]);
    }
  }

  lemma {:induction false} StuckIffLost(o: Options, run: Run)
    requires ValidRun(o, run)
    ensures Stuck(o, Exec(o, run)) <==> exists k: nat :: k < |run| && LostAt(o, run, k)
  {
    if run != [] {
      var init, last := run[..|run| - 1], run[|run| - 1];
      StuckIffLost(o, init);
      StuckAfterStepIff(o, Exec(o, init), last);
      assert run == init + [last];
      LostAfterStepIff(o, init, last);
    }
  }

  lemma LostAfterStepIff(o: Options, init: Run, last: Label)
    ensures (exists k: nat :: k < |init + [last]| && LostAt(o, init + [last], k)) <==>
              LosesTheLoop(o, Exec(o, init), last) ||
              ((exists k: nat :: k < |init| && LostAt(o, init, k)) && !Stops(last))
  {
    var run := init + [last];
    assert run[..|init|] == init && run[|init|] == last;
    forall k: nat | k < |init|
      ensures LostAt(o, run, k) <==> LostAt(o, init, k) && !Stops(last)
    {
      assert run[..k] == init[..k];
      assert forall j | k < j < |init| :: run[j] == init[j];
    }
    assert LostAt(o, run, |init|) <==> LosesTheLoop(o, Exec(o, init), last);
  }
}
