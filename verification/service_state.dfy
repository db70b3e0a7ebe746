/** What a check result does to a service: attempts, soft and hard states, and the
    notifications asked for. */
module ServiceState {
  import opened Basics

  /** OK, WARNING, CRITICAL and UNKNOWN. */
  type State = x: int | 0 <= x <= 3

  const OK: State := 0
  const CRITICAL: State := 2

  /** The fields of a service that decide its soft and hard states. */
  datatype Condition = Condition(current: State, lastHard: State, stateType: StateType,
                                 attempt: nat, max: nat, hostProblem: bool)

  /** What a result is handled in: configuration, the clock's verdict on freshness, the state
      of the host, and how many flexible downtimes are about to start. */
  datatype Setting = Setting(acceptPassive: bool, isFresh: bool, timeoutState: State, hostIsUp: bool,
                             flexDowntimes: nat)

  /** The state a result reports. */
  function Reported(cr: CheckResult, timeoutState: State): State {
    if cr.earlyTimeout then timeoutState
    else if !cr.exitedOk || cr.returnCode < 0 || cr.returnCode > 3 then CRITICAL
    else cr.returnCode
  }

  predicate IsDiscarded(cr: CheckResult, e: Setting) {
    (!cr.isActive && !e.acceptPassive) || (cr.isFreshnessCheck && e.isFresh)
  }

  /** The attempt a problem is at: a soft state counts on, and starts afresh when the host
      was a problem last time and no longer is. */
  ghost function AttemptAt(s: Condition, hostIsUp: bool): nat {
    if s.stateType.Hard? then s.attempt
    else if hostIsUp && s.hostProblem then 1
    else if s.attempt < s.max then s.attempt + 1
    else s.attempt
  }

  /** The condition after a reported state. */
  ghost function Next(s: Condition, c: State, hostIsUp: bool): Condition {
    if c == OK then
      s.(current := OK, lastHard := OK, stateType := Hard, attempt := 1, hostProblem := false)
    else
      var a := AttemptAt(s, hostIsUp);
      var isHard := a >= s.max || (!hostIsUp && (s.stateType.Hard? || s.lastHard != c));
      s.(current := c, attempt := a, hostProblem := !hostIsUp,
         stateType := if isHard then Hard else Soft,
         lastHard := if isHard then c else s.lastHard)
  }

  /** Whether contacts are to hear of it: a problem at its last attempt, and the end of a
      hard problem or of one that came with a host problem. */
  ghost predicate Notifies(s: Condition, c: State, hostIsUp: bool, flexDowntimeStarts: bool) {
    if c == OK then
      s.hostProblem || (s.lastHard != OK && (s.attempt >= s.max || (s.stateType.Soft? && s.attempt + 1 >= s.max)))
    else
      AttemptAt(s, hostIsUp) >= s.max && !(flexDowntimeStarts && (c != s.current || c != s.lastHard))
  }

  ghost function Asked(s: Condition, c: State, e: Setting): seq<State> {
    if Notifies(s, c, e.hostIsUp, e.flexDowntimes > 0) then [c] else []
  }

  class Service {
    var currentState: State
    var lastState: State
    var lastHardState: State
    var stateType: StateType
    var currentAttempt: nat
    var maxAttempts: nat
    var hostProblemAtLastCheck: bool
    var isExecuting: bool
    var isBeingFreshened: bool
    var hasBeenChecked: bool
    /** The states service_notification was called in. */
    ghost var requests: seq<State>

    ghost function Now(): Condition
      reads this
    {
      Condition(currentState, lastHardState, stateType, currentAttempt, maxAttempts, hostProblemAtLastCheck)
    }

    method ServiceNotification()
      modifies `requests
      ensures requests == old(requests) + [currentState]
    {
      requests := requests + [currentState];
    }

    /** handle_async_service_check_result, without what is said to logs and event handlers. */
    method HandleAsyncServiceCheckResult(cr: CheckResult, e: Setting) returns (ok: bool)
      modifies this
      ensures ok <==> cr.isActive || e.acceptPassive
      ensures !ok || (cr.isFreshnessCheck && e.isFresh) ==> Now() == old(Now()) && requests == old(requests)
      ensures IsDiscarded(cr, e) <==> !ok || (cr.isFreshnessCheck && e.isFresh)
      ensures !IsDiscarded(cr, e) ==> Now() == Next(old(Now()), Reported(cr, e.timeoutState), e.hostIsUp)
      ensures !IsDiscarded(cr, e) ==> requests == old(requests) + Asked(old(Now()), Reported(cr, e.timeoutState), e)
      ensures !IsDiscarded(cr, e) ==> hasBeenChecked && lastState == old(currentState)
      ensures ok && cr.isActive ==> !isExecuting
      ensures ok && cr.isFreshnessCheck ==> !isBeingFreshened
    {
      if !cr.isActive && !e.acceptPassive {
        return false;
      }
      if cr.isFreshnessCheck {
        isBeingFreshened := false;
      }
      if cr.isActive {
        isExecuting := false;
      }
      if cr.isFreshnessCheck && e.isFresh {
        return true;
      }
      RecordState(cr, e.timeoutState);
      HandleState(e, Now().(current := lastState));
      hasBeenChecked := true;
      return true;
    }

    method RecordState(cr: CheckResult, timeoutState: State)
      modifies `currentState, `lastState
      ensures lastState == old(currentState) && currentState == Reported(cr, timeoutState)
    {
      lastState := currentState;
      if cr.earlyTimeout {
        currentState := timeoutState;
      } else if !cr.exitedOk {
        currentState := CRITICAL;
      } else if cr.returnCode < 0 || cr.returnCode > 3 {
        currentState := CRITICAL;
      } else {
        currentState := cr.returnCode;
      }
    }

    /** Everything that follows from the new state; `was` is the condition before it. */
    method HandleState(e: Setting, ghost was: Condition)
      requires Now() == was.(current := currentState) && was.current == lastState
      modifies `stateType, `hostProblemAtLastCheck, `currentAttempt, `lastHardState, `requests
      ensures Now() == Next(was, currentState, e.hostIsUp)
      ensures requests == old(requests) + Asked(was, currentState, e)
    {
      if stateType == Soft && currentAttempt < maxAttempts {
        currentAttempt := currentAttempt + 1;
      }
      var stateChange := currentState != lastState;
      var hardStateChange := hostProblemAtLastCheck && currentState == OK;
      if currentAttempt >= maxAttempts && currentState != lastHardState {
        hardStateChange := true;
      }
      if currentState == OK {
        HandleOk(stateChange, hardStateChange);
      } else {
        HandleProblem(stateChange, hardStateChange, e);
      }
    }

    /** The service is OK: a hard or soft recovery, or nothing new; everything is reset. */
    method HandleOk(stateChange: bool, hardStateChange: bool)
      requires currentState == OK
      modifies `stateType, `hostProblemAtLastCheck, `currentAttempt, `lastHardState, `requests
      ensures Now() == Condition(OK, OK, Hard, 1, maxAttempts, false)
      ensures requests == old(requests) + if hardStateChange then [OK] else []
    {
      if hardStateChange {
        stateType := Hard;
        ServiceNotification();
      } else if stateChange {
        stateType := Soft;
      }
      hostProblemAtLastCheck := false;
      currentAttempt := 1;
      stateType := Hard;
      lastHardState := OK;
    }

    /** The service is not OK: retried in a soft state while the host is up and attempts are left. */
    method HandleProblem(stateChange: bool, hardStateChange: bool, e: Setting)
      requires currentState != OK
      requires hardStateChange ==> currentState != lastHardState
      requires currentAttempt >= maxAttempts && currentState != lastHardState ==> hardStateChange
      modifies `stateType, `hostProblemAtLastCheck, `currentAttempt, `lastHardState, `requests
      ensures var a := if e.hostIsUp && old(hostProblemAtLastCheck) && old(stateType).Soft? then 1 else old(currentAttempt);
              var isHard := a >= maxAttempts || (!e.hostIsUp && (old(stateType).Hard? || old(lastHardState) != currentState));
              && currentAttempt == a && hostProblemAtLastCheck == !e.hostIsUp
              && stateType == (if isHard then Hard else Soft)
              && (if isHard && (a >= maxAttempts || old(lastHardState) != currentState)
                  then lastHardState == currentState else lastHardState == old(lastHardState))
              && requests == old(requests) + if a >= maxAttempts && !(e.flexDowntimes > 0 && (stateChange || hardStateChange))
                                             then [currentState] else []
    {
      var routeIsUp, hardChange := e.hostIsUp, hardStateChange;
      if !routeIsUp {
        if lastHardState != currentState {
          hardChange := true;
        }
        if hardChange {
          stateType := Hard;
        }
        hostProblemAtLastCheck := true;
      } else if hostProblemAtLastCheck {
        hostProblemAtLastCheck := false;
        if stateType == Soft {
          currentAttempt := 1;
        }
      }
      if currentAttempt < maxAttempts {
        if !routeIsUp {
          if hardChange {
            lastHardState := currentState;
          }
        } else {
          stateType := Soft;
        }
      } else {
        stateType := Hard;
        var numDowntimesStart := 0;
        if hardChange || stateChange {
          numDowntimesStart := e.flexDowntimes;
        }
        if numDowntimesStart == 0 {
          ServiceNotification();
        }
        lastHardState := currentState;
      }
    }
  }

  /** What holds after every handled result. */
  ghost predicate Sound(s: Condition) {
    && 1 <= s.attempt <= s.max
    && (s.stateType.Hard? ==> s.lastHard == s.current)
    && (s.current == OK ==> s.stateType.Hard? && s.attempt == 1)
  }

  lemma NextIsSound(s: Condition, c: State, hostIsUp: bool)
    requires 1 <= s.attempt <= s.max
    ensures Sound(Next(s, c, hostIsUp)) && Next(s, c, hostIsUp).max == s.max
  {
  }

  /** What a result reports: its return code, unless the check timed out, failed, or gave a
      code that is no state. */
  lemma ReportedStates(cr: CheckResult, timeoutState: State)
    ensures cr.earlyTimeout ==> Reported(cr, timeoutState) == timeoutState
    ensures !cr.earlyTimeout && cr.exitedOk && 0 <= cr.returnCode <= 3 ==> Reported(cr, timeoutState) == cr.returnCode
    ensures !cr.earlyTimeout && !(cr.exitedOk && 0 <= cr.returnCode <= 3) ==> Reported(cr, timeoutState) == 2
    ensures Reported(cr, timeoutState) == 0 <==>
              if cr.earlyTimeout then timeoutState == 0 else cr.exitedOk && cr.returnCode == 0
  {
  }

  /** One result that is not OK, after one that was. */
  lemma ProblemStarts(s: Condition, c: State, e: Setting)
    requires Sound(s) && s.current == 0 && c != 0
    ensures var n := Next(s, c, e.hostIsUp);
            && n.current == c && n.max == s.max && n.attempt == 1 && n.hostProblem == !e.hostIsUp
            && (n.stateType.Soft? <==> e.hostIsUp && s.max > 1)
            && n.lastHard == (if n.stateType.Hard? then c else 0)
            && Asked(s, c, e) == if s.max == 1 && e.flexDowntimes == 0 then [c] else []
  {
  }

  /** One more result that is not OK. */
  lemma ProblemGoesOn(s: Condition, c: State, e: Setting)
    requires Sound(s) && s.current != 0 && c != 0
    ensures var n := Next(s, c, e.hostIsUp);
            && n.current == c && n.max == s.max && n.hostProblem == !e.hostIsUp
            && (s.stateType.Hard? ==> n.attempt == s.attempt)
            && (s.stateType.Soft? && s.hostProblem && e.hostIsUp ==> n.attempt == 1)
            && (s.stateType.Soft? && !(s.hostProblem && e.hostIsUp) ==>
                  n.attempt == if s.attempt < s.max then s.attempt + 1 else s.max)
            && (n.stateType.Soft? <==>
                  n.attempt < s.max && (e.hostIsUp || (s.stateType.Soft? && s.lastHard == c)))
            && n.lastHard == (if n.stateType.Hard? then c else s.lastHard)
            && Asked(s, c, e) == if n.attempt == s.max && (e.flexDowntimes == 0 || (c == s.current && c == s.lastHard))
                                 then [c] else []
  {
  }

  /** One result that is OK: everything is reset, and the recovery is announced when the host
      was a problem, or when the last hard state was one and the last attempt has come. */
  lemma UpAgain(s: Condition, e: Setting)
    requires Sound(s)
    ensures Next(s, 0, e.hostIsUp) == Condition(0, 0, Hard, 1, s.max, false)
    ensures Asked(s, 0, e) == if s.hostProblem || (s.lastHard != 0 && s.attempt + HeadStart(s) >= s.max) then [0] else []
  {
  }

  /** The result that ends a soft problem is counted as an attempt. */
  ghost function HeadStart(s: Condition): nat {
    if s.stateType.Hard? then 0 else 1
  }

  /** One handled result of a run. */
  datatype Seen = Seen(state: State, hostIsUp: bool)

  ghost function After(s: Condition, run: seq<Seen>): Condition {
    if run == [] then s
    else Next(After(s, run[..|run| - 1]), run[|run| - 1].state, run[|run| - 1].hostIsUp)
  }

  /** Whatever the host did meanwhile, and whatever state the service was in. */
  lemma {:induction false} EveryRunIsSound(s: Condition, run: seq<Seen>)
    requires 1 <= s.attempt <= s.max
    ensures 1 <= After(s, run).attempt <= After(s, run).max == s.max
    ensures run != [] || Sound(s) ==> Sound(After(s, run))
    ensures run != [] ==> After(s, run).current == run[|run| - 1].state
                          && After(s, run).hostProblem == (run[|run| - 1].state != OK && !run[|run| - 1].hostIsUp)
  {
    if run != [] {
      EveryRunIsSound(s, run[..|run| - 1]);
      NextIsSound(After(s, run[..|run| - 1]), run[|run| - 1].state, run[|run| - 1].hostIsUp);
    }
  }

  ghost predicate Settled(s: Condition) {
    s.max >= 1 && s == Condition(OK, OK, Hard, 1, s.max, false)
  }

  /** How many results at the end of a run are not OK. */
  ghost function Streak(run: seq<Seen>): (k: nat)
    ensures k <= |run|
  {
    if run == [] || run[|run| - 1].state == OK then 0 else 1 + Streak(run[..|run| - 1])
  }

  ghost predicate HostIsUpIn(run: seq<Seen>) {
    forall i :: 0 <= i < |run| ==> run[i].hostIsUp
  }

  /** With the host up throughout, only the length of the current streak matters: the k-th
      result that is not OK is soft exactly while k is below the maximum. */
  lemma {:induction false} SoftUntilLastAttempt(s: Condition, run: seq<Seen>)
    requires Settled(s) && HostIsUpIn(run)
    ensures var k, n := Streak(run), After(s, run);
            && n.max == s.max && !n.hostProblem
            && (k == 0 ==> Settled(n))
            && (k > 0 ==> n.current == run[|run| - 1].state && n.attempt == Min(k, s.max))
            && (k > 0 ==> (n.stateType.Soft? <==> k < s.max))
            && (k > 0 ==> n.lastHard == if k < s.max then OK else n.current)
  {
    if run != [] {
      SoftUntilLastAttempt(s, run[..|run| - 1]);
    }
  }

  /** What is asked for after such a run: a problem from the last attempt on, and a
      recovery exactly when the streak got that far. */
  lemma NotifiedAtLastAttempt(s: Condition, run: seq<Seen>, c: State)
    requires Settled(s) && HostIsUpIn(run)
    ensures var n, k := After(s, run), Streak(run);
            && (c == OK ==> forall flex :: Notifies(n, c, true, flex) <==> k >= s.max)
            && (c != OK ==> (Notifies(n, c, true, false) <==> k + 1 >= s.max))
            && (c != OK && Notifies(n, c, true, true) ==> k + 1 >= s.max)
  {
    SoftUntilLastAttempt(s, run);
  }

  /** A host problem puts a service that was OK in a hard problem state at once, without a
      word to anyone before the last attempt; its end is announced. */
  lemma HostProblemIsHard(s: Condition, c: State)
    requires Settled(s) && s.max > 1 && c != OK
    ensures var n := Next(s, c, false);
            && n.stateType.Hard? && n.lastHard == c && n.attempt == 1 && n.hostProblem
            && !Notifies(s, c, false, false) && Notifies(n, OK, true, false) && Notifies(n, OK, false, false)
  {
  }

  /** A hard problem that came with the host's turns soft again when the host is back
      before the service is, and then may end without being announced. */
  lemma HardProblemMayTurnSoft(s: Condition, c: State)
    requires Settled(s) && s.max > 1 && c != OK
    ensures var n := Next(Next(s, c, false), c, true);
            && n.stateType.Soft? && n.lastHard == c && n.attempt == 1
            && forall flex :: Notifies(n, OK, true, flex) <==> s.max == 2
  {
  }

  /** While the host is not up either, a problem of a service that was OK stays hard at
      attempt 1, so that, with more than one attempt, nobody hears of it however long it lasts. */
  lemma {:induction false} HostProblemStaysSilent(s: Condition, run: seq<Seen>, c: State, flex: bool)
    requires Settled(s) && s.max > 1 && c != OK
    requires forall i :: 0 <= i < |run| ==> run[i].state != OK && !run[i].hostIsUp
    ensures var n := After(s, run);
            && n.max == s.max && n.attempt == 1 && n.stateType.Hard? && !Notifies(n, c, false, flex)
            && (run == [] ==> n == s) && (run != [] ==> n.hostProblem && n.lastHard == n.current == run[|run| - 1].state)
  {
    if run != [] {
      HostProblemStaysSilent(s, run[..|run| - 1], c, flex);
    }
  }

  /** The results of a run that are not discarded, as they count. */
  ghost function Accepted(inputs: seq<(CheckResult, Setting)>): seq<Seen> {
    if inputs == [] then []
    else
      var (cr, e) := inputs[|inputs| - 1];
      Accepted(inputs[..|inputs| - 1])
      + if IsDiscarded(cr, e) then [] else [Seen(Reported(cr, e.timeoutState), e.hostIsUp)]
  }

  lemma AfterOneMore(s: Condition, run: seq<Seen>, x: Seen)
    ensures After(s, run + [x]) == Next(After(s, run), x.state, x.hostIsUp)
  {
    assert (run + [x])[..|run|] == run;
  }

  /** The notifications asked for over a run. */
  ghost function AllAsked(s: Condition, inputs: seq<(CheckResult, Setting)>): seq<State> {
    if inputs == [] then []
    else
      var front := inputs[..|inputs| - 1];
      var (cr, e) := inputs[|inputs| - 1];
      AllAsked(s, front)
      + if IsDiscarded(cr, e) then [] else Asked(After(s, Accepted(front)), Reported(cr, e.timeoutState), e)
  }

  /** Over a streak of results that are not OK, with the host up, one notification is asked
      for at the last attempt and one for every result after it. */
  lemma {:induction false} StreakAsks(s: Condition, inputs: seq<(CheckResult, Setting)>)
    requires Settled(s)
    requires forall i :: 0 <= i < |inputs| ==>
               var (cr, e) := inputs[i];
               !IsDiscarded(cr, e) && Reported(cr, e.timeoutState) != OK && e.hostIsUp && e.flexDowntimes == 0
    ensures |AllAsked(s, inputs)| == if |inputs| < s.max then 0 else |inputs| - s.max + 1
    ensures var run := Accepted(inputs); HostIsUpIn(run) && Streak(run) == |run| == |inputs|
  {
    hide Next, Notifies;
    if inputs != [] {
      var front := inputs[..|inputs| - 1];
      var (cr, e) := inputs[|inputs| - 1];
      StreakAsks(s, front);
      var run := Accepted(front);
      NotifiedAtLastAttempt(s, run, Reported(cr, e.timeoutState));
      assert (run + [Seen(Reported(cr, e.timeoutState), e.hostIsUp)])[..|run|] == run;
    }
  }

  /** What one more result adds. */
  lemma OneMoreResult(s: Condition, inputs: seq<(CheckResult, Setting)>, i: nat)
    requires i < |inputs|
    ensures var (cr, e) := inputs[i];
            var n := After(s, Accepted(inputs[..i]));
            && After(s, Accepted(inputs[..i + 1]))
               == (if IsDiscarded(cr, e) then n else Next(n, Reported(cr, e.timeoutState), e.hostIsUp))
            && AllAsked(s, inputs[..i + 1])
               == AllAsked(s, inputs[..i])
                  + if IsDiscarded(cr, e) then [] else Asked(n, Reported(cr, e.timeoutState), e)
  {
    hide Next, Asked, After, Reported;
    var (cr, e) := inputs[i];
    assert inputs[..i + 1][..i] == inputs[..i] && inputs[..i + 1][i] == inputs[i];
    assert Accepted(inputs[..i]) + [] == Accepted(inputs[..i]);
    AfterOneMore(s, Accepted(inputs[..i]), Seen(Reported(cr, e.timeoutState), e.hostIsUp));
  }

  /** Handling any results one after the other comes to what their run says. */
  method HandleAll(svc: Service, inputs: seq<(CheckResult, Setting)>)
    modifies svc
    ensures svc.Now() == After(old(svc.Now()), Accepted(inputs))
    ensures svc.requests == old(svc.requests) + AllAsked(old(svc.Now()), inputs)
  {
    hide Next, Asked, After, Accepted, AllAsked, IsDiscarded, Reported, Service.Now;
    NoResults(svc.Now());
    for i := 0 to |inputs|
      invariant svc.Now() == After(old(svc.Now()), Accepted(inputs[..i]))
      invariant svc.requests == old(svc.requests) + AllAsked(old(svc.Now()), inputs[..i])
    {
      OneMoreResult(old(svc.Now()), inputs, i);
      var _ := svc.HandleAsyncServiceCheckResult(inputs[i].0, inputs[i].1);
    }
    assert inputs[..|inputs|] == inputs;
  }

  lemma NoResults(s: Condition)
    ensures After(s, Accepted([])) == s && AllAsked(s, []) == []
  {
  }
}
