/** What a check result does to a host: attempts, soft and hard states, reachability,
    and the notifications asked for. */
module HostState {
  import opened Basics

  const UP := 0
  const DOWN := 1
  const UNREACHABLE := 2
  const WARNING := 1
  const CRITICAL := 2
  const UNKNOWN := 3

  /** The fields of a host that decide its soft and hard states. */
  datatype Condition = Condition(current: int, last: int, lastHard: int, stateType: StateType,
                                 attempt: nat, max: nat, checkIsActive: bool)

  /** What a result is handled in: configuration, the clock's verdict on freshness, the
      states of the parents, and how many flexible downtimes are about to start. */
  datatype Setting = Setting(acceptPassive: bool, passiveIsSoft: bool, translatePassive: bool, aggressive: bool,
                             hasCommand: bool, isFresh: bool, parents: seq<int>, flexDowntimes: nat)

  /** The state a result reports; a passive one reports it as it is. */
  function Reported(cr: CheckResult, e: Setting): int {
    if !cr.isActive then cr.returnCode
    else if !e.hasCommand then UP
    else if cr.earlyTimeout || !cr.exitedOk || cr.returnCode < 0 || cr.returnCode > 3 then DOWN
    else if cr.returnCode == 0 || (cr.returnCode == WARNING && !e.aggressive) then UP
    else DOWN
  }

  /** A host that is not up is unreachable when it has parents and none of them is up. */
  ghost function Reachability(parents: seq<int>): int {
    if parents != [] && UP !in parents then UNREACHABLE else DOWN
  }

  /** What the result itself does, before it is processed. */
  ghost function Updated(s: Condition, cr: CheckResult, e: Setting): Condition {
    var counts := cr.isActive || e.passiveIsSoft;
    var a := if !counts then s.attempt
             else if s.stateType.Hard? || (cr.isActive && s.current == UP) then 1
             else if s.attempt < s.max then s.attempt + 1
             else s.attempt;
    s.(current := Reported(cr, e), last := s.current, checkIsActive := cr.isActive, attempt := a,
       lastHard := if s.stateType.Hard? then s.current else s.lastHard,
       stateType := if !counts || a >= s.max then Hard else s.stateType)
  }

  /** Whether anything changes that contacts may have to hear of. */
  ghost predicate Changes(s: Condition) {
    s.last != s.current || (s.current == UP && s.stateType.Soft?) || s.lastHard != s.current
  }

  /** The condition with its type and its DOWN or UNREACHABLE settled, given the state before. */
  ghost function Classified(s: Condition, before: int, e: Setting): Condition {
    var counts := s.checkIsActive || e.passiveIsSoft;
    if s.current == UP then
      s.(stateType := if before == UP || !counts then Hard else s.stateType)
    else
      s.(current := if s.checkIsActive || e.translatePassive then Reachability(e.parents) else s.current,
         attempt := if counts then s.attempt else 1,
         stateType := if !counts || s.attempt == s.max || (before != UP && s.attempt == 1) then Hard else Soft)
  }

  ghost function Finished(s: Condition): Condition {
    if Changes(s) && s.current == UP then s.(attempt := 1) else s
  }

  /** Contacts hear of a hard change, unless it is a problem and a flexible downtime starts
      for it, and of a hard problem that lasts. */
  ghost predicate Notifies(s: Condition, flexDowntimeStarts: bool) {
    s.stateType.Hard? && if Changes(s) then s.current == UP || !flexDowntimeStarts else s.current != UP
  }

  predicate IsRefused(cr: CheckResult, e: Setting) {
    !cr.isActive && !e.acceptPassive
  }

  predicate IsDiscarded(cr: CheckResult, e: Setting) {
    cr.isFreshnessCheck && e.isFresh
  }

  /** The classified condition after one result.  A discarded freshness check leaves the
      fields alone, but what is there is processed once more. */
  ghost function Processed(s: Condition, cr: CheckResult, e: Setting): Condition {
    Classified(if IsDiscarded(cr, e) then s else Updated(s, cr, e), s.current, e)
  }

  ghost function Next(s: Condition, cr: CheckResult, e: Setting): Condition {
    if IsRefused(cr, e) then s else Finished(Processed(s, cr, e))
  }

  ghost function Asked(s: Condition, cr: CheckResult, e: Setting): seq<int> {
    if !IsRefused(cr, e) && Notifies(Processed(s, cr, e), e.flexDowntimes > 0)
    then [Processed(s, cr, e).current] else []
  }

  class Host {
    var currentState: int
    var lastState: int
    var lastHardState: int
    var stateType: StateType
    var currentAttempt: nat
    var maxAttempts: nat
    var checkIsActive: bool
    var isExecuting: bool
    var isBeingFreshened: bool
    var hasBeenChecked: bool
    /** The states host_notification was called in. */
    ghost var requests: seq<int>

    ghost function Now(): Condition
      reads this
    {
      Condition(currentState, lastState, lastHardState, stateType, currentAttempt, maxAttempts, checkIsActive)
    }

    method HostNotification()
      modifies `requests
      ensures requests == old(requests) + [currentState]
    {
      requests := requests + [currentState];
    }

    /** adjust_host_check_attempt. */
    method AdjustHostCheckAttempt(isActive: bool)
      modifies `currentAttempt
      ensures currentAttempt == if stateType.Hard? || (isActive && currentState == UP) then 1
                                else if old(currentAttempt) < maxAttempts then old(currentAttempt) + 1
                                else old(currentAttempt)
    {
      if stateType == Hard {
        currentAttempt := 1;
      } else if isActive && stateType == Soft && currentState == UP {
        currentAttempt := 1;
      } else if currentAttempt < maxAttempts {
        currentAttempt := currentAttempt + 1;
      }
    }

    /** The state a result stands for. */
    method Translate(cr: CheckResult, e: Setting) returns (result: int)
      ensures result == Reported(cr, e)
    {
      result := cr.returnCode;
      if cr.isActive {
        if cr.earlyTimeout {
          result := UNKNOWN;
        } else if !cr.exitedOk {
          result := CRITICAL;
        } else if cr.returnCode < 0 || cr.returnCode > 3 {
          result := CRITICAL;
        }
        if !e.hasCommand {
          result := UP;
        }
        if !e.aggressive && result == WARNING {
          result := UP;
        }
        result := if result == UP then UP else DOWN;
      }
    }

    /** The attempt the result is, and whether it is the last one. */
    method CountAttempt(e: Setting)
      modifies `currentAttempt, `stateType
      ensures !checkIsActive && !e.passiveIsSoft ==> currentAttempt == old(currentAttempt) && stateType.Hard?
      ensures checkIsActive || e.passiveIsSoft ==>
                && currentAttempt == (if old(stateType).Hard? || (checkIsActive && currentState == UP) then 1
                                      else if old(currentAttempt) < maxAttempts then old(currentAttempt) + 1
                                      else old(currentAttempt))
                && stateType == if currentAttempt >= maxAttempts then Hard else old(stateType)
    {
      if !checkIsActive {
        if e.passiveIsSoft {
          AdjustHostCheckAttempt(false);
        } else {
          stateType := Hard;
        }
      } else {
        AdjustHostCheckAttempt(true);
      }
      if currentAttempt >= maxAttempts {
        stateType := Hard;
      }
    }

    /** update_host_state_post_check. */
    method UpdateHostStatePostCheck(cr: CheckResult, e: Setting)
      modifies this
      ensures Now() == if IsDiscarded(cr, e) then old(Now()) else Updated(old(Now()), cr, e)
      ensures requests == old(requests)
      ensures isBeingFreshened == (old(isBeingFreshened) && !cr.isFreshnessCheck)
      ensures isExecuting == (old(isExecuting) && (!cr.isActive || IsDiscarded(cr, e)))
      ensures hasBeenChecked == (old(hasBeenChecked) || !IsDiscarded(cr, e))
    {
      hide Reported;
      if cr.isFreshnessCheck {
        isBeingFreshened := false;
      }
      if cr.isFreshnessCheck && e.isFresh {
        return;
      }
      checkIsActive := cr.isActive;
      hasBeenChecked := true;
      lastState := currentState;
      if stateType == Hard {
        lastHardState := currentState;
      }
      if cr.isActive {
        isExecuting := false;
      }
      var result := Translate(cr, e);
      CountAttempt(e);
      currentState := result;
    }

    /** determine_host_reachability. */
    method DetermineHostReachability(parents: seq<int>) returns (state: int)
      ensures state == if currentState == UP then UP else Reachability(parents)
    {
      if currentState == UP {
        return UP;
      }
      if |parents| == 0 {
        return DOWN;
      }
      for i := 0 to |parents|
        invariant UP !in parents[..i]
      {
        if parents[i] == UP {
          return DOWN;
        }
      }
      return UNREACHABLE;
    }

    /** process_host_check_result up to the handling of the state. */
    method Classify(before: int, e: Setting)
      modifies `currentState, `stateType, `currentAttempt
      ensures Now() == Classified(old(Now()), before, e)
    {
      if before != UP {
        if currentState == UP {
          if stateType == Hard || (!checkIsActive && !e.passiveIsSoft) {
            stateType := Hard;
          } else {
            stateType := Soft;
          }
        } else {
          if !checkIsActive && !e.passiveIsSoft {
            stateType := Hard;
            currentAttempt := 1;
          } else if currentAttempt == maxAttempts {
            stateType := Hard;
          } else if currentAttempt == 1 {
            stateType := Hard;
          } else {
            stateType := Soft;
          }
          if checkIsActive || e.translatePassive {
            currentState := DetermineHostReachability(e.parents);
          }
        }
      } else if currentState == UP {
        stateType := Hard;
      } else {
        if checkIsActive || e.passiveIsSoft {
          if currentAttempt == maxAttempts {
            stateType := Hard;
          } else {
            stateType := Soft;
          }
        } else {
          stateType := Hard;
          currentAttempt := 1;
        }
        if checkIsActive || e.translatePassive {
          currentState := DetermineHostReachability(e.parents);
        }
      }
    }

    /** check_pending_flex_host_downtime: none starts for a host that is up. */
    method CheckPendingFlexDowntime(e: Setting) returns (num: nat)
      ensures num == if currentState == UP then 0 else e.flexDowntimes
    {
      if currentState == UP {
        return 0;
      }
      return e.flexDowntimes;
    }

    /** handle_host_state. */
    method HandleHostState(e: Setting)
      modifies `currentAttempt, `requests
      ensures Now() == Finished(old(Now()))
      ensures requests == old(requests) + if Notifies(old(Now()), e.flexDowntimes > 0) then [currentState] else []
    {
      var stateChange := lastState != currentState || (currentState == UP && stateType == Soft);
      var hardStateChange := currentAttempt >= maxAttempts && lastHardState != currentState;
      if lastHardState != currentState {
        hardStateChange := true;
      }
      if stateChange || hardStateChange {
        var numDowntimesStart := CheckPendingFlexDowntime(e);
        if stateType == Hard && numDowntimesStart == 0 {
          HostNotification();
        }
        if currentState == UP {
          currentAttempt := 1;
        }
      } else if currentState != UP && stateType == Hard {
        HostNotification();
      }
    }

    /** handle_async_host_check_result. */
    method HandleAsyncHostCheckResult(cr: CheckResult, e: Setting) returns (ok: bool)
      modifies this
      ensures ok <==> !IsRefused(cr, e)
      ensures Now() == Next(old(Now()), cr, e) && requests == old(requests) + Asked(old(Now()), cr, e)
      ensures ok && cr.isFreshnessCheck ==> !isBeingFreshened
      ensures ok && !(cr.isFreshnessCheck && e.isFresh) ==> hasBeenChecked && (cr.isActive ==> !isExecuting)
    {
      hide Updated, Classified, Finished, Notifies;
      if !cr.isActive && !e.acceptPassive {
        return false;
      }
      var before := currentState;
      UpdateHostStatePostCheck(cr, e);
      Classify(before, e);
      HandleHostState(e);
      return true;
    }
  }

  /** Whatever results come in, active or passive, accepted or not, the attempt stays in range,
      and a host that is not up is hard once it is at its last attempt. */
  ghost predicate Sound(s: Condition) {
    1 <= s.attempt <= s.max && (s.current != UP && s.attempt == s.max ==> s.stateType.Hard?)
  }

  lemma NextIsSound(s: Condition, cr: CheckResult, e: Setting)
    requires Sound(s)
    ensures Sound(Next(s, cr, e)) && Next(s, cr, e).max == s.max
  {
  }

  /** What an active result reports is UP or DOWN: UP with a return code of 0, or of 1 unless
      aggressive, or when there is nothing to run.  A passive one is taken at its word. */
  lemma ReportedStates(cr: CheckResult, e: Setting)
    ensures !cr.isActive ==> Reported(cr, e) == cr.returnCode
    ensures cr.isActive ==> Reported(cr, e) == 0 || Reported(cr, e) == 1
    ensures cr.isActive ==>
              (Reported(cr, e) == 0 <==>
                !e.hasCommand ||
                (!cr.earlyTimeout && cr.exitedOk && (cr.returnCode == 0 || (cr.returnCode == 1 && !e.aggressive))))
  {
  }

  /** One result that is not UP, from start to end. */
  lemma ProblemSeen(s: Condition, cr: CheckResult, e: Setting)
    requires (cr.isActive || e.acceptPassive) && !(cr.isFreshnessCheck && e.isFresh) && Reported(cr, e) != 0
    ensures var n := Next(s, cr, e);
            && n.max == s.max && n.last == s.current && n.checkIsActive == cr.isActive
            && n.lastHard == (if s.stateType.Hard? then s.current else s.lastHard)
            && (!cr.isActive && !e.translatePassive ==> n.current == cr.returnCode)
            && (cr.isActive || e.translatePassive ==>
                  n.current == if e.parents != [] && (forall p :: p in e.parents ==> p != 0) then 2 else 1)
            && (!cr.isActive && !e.passiveIsSoft ==> n.stateType.Hard? && n.attempt == 1)
            && (cr.isActive || e.passiveIsSoft ==>
                  && n.attempt == (if s.stateType.Hard? || (cr.isActive && s.current == 0) then 1
                                   else if s.attempt < s.max then s.attempt + 1 else s.attempt)
                  && (n.stateType.Soft? <==> n.attempt != s.max && (s.current == 0 || n.attempt != 1)))
            && (Asked(s, cr, e) == [] || Asked(s, cr, e) == [n.current])
            && (Asked(s, cr, e) != [] <==>
                  n.stateType.Hard? && (e.flexDowntimes == 0 || (n.current == s.current && n.current == n.lastHard)))
  {
  }

  /** One result that is UP, from start to end. */
  lemma UpSeen(s: Condition, cr: CheckResult, e: Setting)
    requires (cr.isActive || e.acceptPassive) && !(cr.isFreshnessCheck && e.isFresh) && Reported(cr, e) == 0
    ensures var n := Next(s, cr, e);
            && n.max == s.max && n.last == s.current && n.checkIsActive == cr.isActive && n.current == 0
            && n.lastHard == (if s.stateType.Hard? then s.current else s.lastHard)
            && (n.stateType.Soft? <==>
                  s.current != 0 && s.stateType.Soft? && s.attempt + 1 < s.max && (cr.isActive || e.passiveIsSoft))
            && (s.current != 0 || n.lastHard != 0 ==> n.attempt == 1)
            && (s.current == 0 && n.lastHard == 0 ==>
                  n.attempt == if !cr.isActive && !e.passiveIsSoft then s.attempt
                               else if cr.isActive || s.stateType.Hard? then 1
                               else if s.attempt < s.max then s.attempt + 1 else s.attempt)
            && Asked(s, cr, e) == if n.stateType.Hard? && (s.current != 0 || n.lastHard != 0) then [0] else []
  {
  }

  /** A result that is not taken: a refused one changes nothing, a discarded one has the
      condition as it is classified and announced once more, by the kind of the last check. */
  lemma NotTaken(s: Condition, cr: CheckResult, e: Setting)
    ensures !cr.isActive && !e.acceptPassive ==> Next(s, cr, e) == s && Asked(s, cr, e) == []
    ensures (cr.isActive || e.acceptPassive) && cr.isFreshnessCheck && e.isFresh && s.current == 0 ==>
              var n := Next(s, cr, e);
              && n == s.(stateType := Hard, attempt := if s.last != 0 || s.lastHard != 0 then 1 else s.attempt)
              && Asked(s, cr, e) == if s.last != 0 || s.lastHard != 0 then [0] else []
    ensures (cr.isActive || e.acceptPassive) && cr.isFreshnessCheck && e.isFresh && s.current != 0 ==>
              var n := Next(s, cr, e);
              && n == s.(current := n.current, stateType := n.stateType, attempt := n.attempt)
              && (!s.checkIsActive && !e.translatePassive ==> n.current == s.current)
              && (s.checkIsActive || e.translatePassive ==>
                    n.current == if e.parents != [] && (forall p :: p in e.parents ==> p != 0) then 2 else 1)
              && (!s.checkIsActive && !e.passiveIsSoft ==> n.stateType.Hard? && n.attempt == 1)
              && (s.checkIsActive || e.passiveIsSoft ==>
                    n.attempt == s.attempt && (n.stateType.Hard? <==> s.attempt == s.max || s.attempt == 1))
              && (Asked(s, cr, e) == [] || Asked(s, cr, e) == [n.current])
              && (Asked(s, cr, e) != [] <==>
                    n.stateType.Hard? && (e.flexDowntimes == 0 || (n.current == s.last && n.current == s.lastHard)))
  {
  }

  /** A run of results, each in its setting. */
  type Run = seq<(CheckResult, Setting)>

  ghost function After(s: Condition, run: Run): Condition {
    if run == [] then s else Next(After(s, run[..|run| - 1]), run[|run| - 1].0, run[|run| - 1].1)
  }

  lemma {:induction false} EveryRunIsSound(s: Condition, run: Run)
    requires Sound(s)
    ensures Sound(After(s, run)) && After(s, run).max == s.max
  {
    if run != [] {
      EveryRunIsSound(s, run[..|run| - 1]);
      NextIsSound(After(s, run[..|run| - 1]), run[|run| - 1].0, run[|run| - 1].1);
    }
  }

  ghost predicate IsActiveRun(run: Run) {
    forall i :: 0 <= i < |run| ==> run[i].0.isActive && !IsDiscarded(run[i].0, run[i].1)
  }

  /** Up, nothing pending. */
  ghost predicate Settled(s: Condition) {
    s.max >= 1 && s.current == UP && s.lastHard == UP && s.attempt == 1
  }

  /** How many results at the end of a run are not UP. */
  ghost function Streak(run: Run): (k: nat)
    ensures k <= |run|
  {
    if run == [] || Reported(run[|run| - 1].0, run[|run| - 1].1) == UP then 0 else 1 + Streak(run[..|run| - 1])
  }

  /** Up, whatever came before: the next result finds a fresh start. */
  ghost predicate Fresh(s: Condition) {
    s.current == UP && s.attempt == 1 && (s.stateType.Soft? ==> s.lastHard == UP)
  }

  /** Active checks only: the k-th result in a row that is not UP is soft exactly while k is
      below the maximum; its attempt is k up to the maximum and 1 from then on. */
  lemma {:induction false} SoftUntilLastAttempt(s: Condition, run: Run)
    requires Settled(s) && IsActiveRun(run)
    ensures var k, n := Streak(run), After(s, run);
            && n.max == s.max
            && (k == 0 ==> Fresh(n))
            && (k > 0 ==> (n.current == DOWN || n.current == UNREACHABLE))
            && (k > 0 ==> n.attempt == if k <= s.max then k else 1)
            && (k > 0 ==> (n.stateType.Soft? <==> k < s.max))
            && (0 < k <= s.max ==> n.lastHard == UP)
  {
    if run != [] {
      SoftUntilLastAttempt(s, run[..|run| - 1]);
    }
  }

  /** What is asked for next: a problem from the last attempt on, unless a flexible downtime
      starts; a recovery, whatever downtimes there are, already when the streak is one short
      of it, since the result that finds the host up is counted as an attempt too. */
  lemma NotifiedAtLastAttempt(s: Condition, run: Run, cr: CheckResult, e: Setting)
    requires Settled(s) && IsActiveRun(run) && cr.isActive && !IsDiscarded(cr, e)
    ensures var n, k := After(s, run), Streak(run);
            && (Reported(cr, e) != UP && e.flexDowntimes == 0 ==> (Asked(n, cr, e) != [] <==> k + 1 >= s.max))
            && (Reported(cr, e) != UP && Asked(n, cr, e) != [] ==> k + 1 >= s.max)
            && (Reported(cr, e) == UP ==> (Asked(n, cr, e) != [] <==> k > 0 && k + 1 >= s.max))
  {
    SoftUntilLastAttempt(s, run);
  }

  /** The announcement that comes early: the host was never hard, and its recovery is asked
      to be announced when its streak was one short of the last attempt. */
  lemma RecoveryComesEarly(s: Condition, run: Run, cr: CheckResult, e: Setting)
    requires Settled(s) && IsActiveRun(run) && 0 < Streak(run) == s.max - 1
    requires cr.isActive && !IsDiscarded(cr, e) && Reported(cr, e) == UP
    ensures After(s, run).stateType.Soft? && Asked(After(s, run), cr, e) == [UP]
  {
    SoftUntilLastAttempt(s, run);
  }

  /** At most two attempts, one result DOWN, then UP. */
  lemma RecoveryComesEarlyExample()
    ensures var s := Condition(UP, UP, UP, Hard, 1, 2, true);
            var e := Setting(true, false, false, false, true, false, [], 0);
            var down, up := CheckResult(true, false, false, true, CRITICAL), CheckResult(true, false, false, true, 0);
            && Asked(s, down, e) == [] && Next(s, down, e).stateType.Soft?
            && Asked(Next(s, down, e), up, e) == [UP]
  {
  }

  /** A freshness check that is discarded still hardens a problem at its first attempt, and
      asks for a notification, although nothing new is known. */
  lemma DiscardedCheckHardens(s: Condition, cr: CheckResult, e: Setting)
    requires s.current != UP && s.stateType.Soft? && s.attempt == 1 < s.max && s.last == UP
    requires cr.isActive && IsDiscarded(cr, e) && e.flexDowntimes == 0
    ensures Next(s, cr, e).stateType.Hard? && Asked(s, cr, e) != []
  {
  }

  /** The race the discard is for: a passive result arrives while the freshness check is
      out.  Its problem is asked to be announced when it arrives, and once more when the
      freshness check comes back and is discarded. */
  lemma PassiveRaceAnnouncesTwice(s: Condition, passive: CheckResult, late: CheckResult, e: Setting)
    requires s.current == UP && s.stateType.Hard? && e.acceptPassive && !e.passiveIsSoft && e.flexDowntimes == 0
    requires !passive.isActive && !passive.isFreshnessCheck && Reported(passive, e) != UP
    requires late.isActive && late.isFreshnessCheck
    ensures var n := Next(s, passive, e);
            && Asked(s, passive, e) != []
            && Asked(n, late, e.(isFresh := true)) == Asked(s, passive, e) && Next(n, late, e.(isFresh := true)) == n
  {
  }

  /** The same for the end of a hard problem, whatever flexible downtimes there are. */
  lemma PassiveRaceRecoversTwice(s: Condition, passive: CheckResult, late: CheckResult, e: Setting)
    requires s.current != UP && s.stateType.Hard? && e.acceptPassive
    requires !passive.isActive && !passive.isFreshnessCheck && Reported(passive, e) == UP
    requires late.isActive && late.isFreshnessCheck
    ensures var n := Next(s, passive, e);
            && Asked(s, passive, e) == [UP]
            && Asked(n, late, e.(isFresh := true)) == [UP] && Next(n, late, e.(isFresh := true)) == n
  {
  }

  /** Exactly when a discarded freshness check leaves everything as it was and asks for
      nothing, whatever kind of check came before it. */
  lemma DiscardedCheckIsHarmlessIff(s: Condition, cr: CheckResult, e: Setting)
    requires IsDiscarded(cr, e) && !IsRefused(cr, e)
    ensures Next(s, cr, e) == s && Asked(s, cr, e) == [] <==>
            if s.current == UP then
              s.stateType.Hard? && !Changes(s)
            else
              && (s.checkIsActive || e.translatePassive ==> s.current == Reachability(e.parents))
              && (if s.checkIsActive || e.passiveIsSoft then s.stateType.Hard? <==> s.attempt == 1 || s.attempt == s.max
                  else s.stateType.Hard? && s.attempt == 1)
              && (s.stateType.Hard? ==> Changes(s) && e.flexDowntimes > 0)
  {
  }

  /** The notifications asked for over a run. */
  ghost function AllAsked(s: Condition, run: Run): seq<int> {
    if run == [] then []
    else
      var front, last := run[..|run| - 1], run[|run| - 1];
      AllAsked(s, front) + Asked(After(s, front), last.0, last.1)
  }

  /** Over a streak of results that are not UP, one notification is asked for at the last
      attempt and one for every result after it. */
  lemma {:induction false} StreakAsks(s: Condition, run: Run)
    requires Settled(s) && IsActiveRun(run)
    requires forall i :: 0 <= i < |run| ==> Reported(run[i].0, run[i].1) != UP && run[i].1.flexDowntimes == 0
    ensures |AllAsked(s, run)| == if |run| < s.max then 0 else |run| - s.max + 1
    ensures Streak(run) == |run|
  {
    hide Next, Asked;
    if run != [] {
      StreakAsks(s, run[..|run| - 1]);
      NotifiedAtLastAttempt(s, run[..|run| - 1], run[|run| - 1].0, run[|run| - 1].1);
      AskedIsOne(After(s, run[..|run| - 1]), run[|run| - 1].0, run[|run| - 1].1);
    }
  }

  lemma AskedIsOne(s: Condition, cr: CheckResult, e: Setting)
    ensures |Asked(s, cr, e)| <= 1
  {
  }

  /** A passive result that is taken, where passive checks may be soft. */
  ghost predicate IsSoftPassive(cr: CheckResult, e: Setting) {
    !cr.isActive && e.acceptPassive && e.passiveIsSoft && !(cr.isFreshnessCheck && e.isFresh)
  }

  /** Such results, and none of them UP. */
  ghost predicate IsSoftPassiveRun(run: Run) {
    forall i :: 0 <= i < |run| ==> IsSoftPassive(run[i].0, run[i].1) && Reported(run[i].0, run[i].1) != UP
  }

  /** A soft recovery leaves the host soft, which counts as an attempt for the next problem. */
  ghost function HeadStart(s: Condition): nat {
    if s.stateType.Hard? then 0 else 1
  }

  /** Passive results count like active ones then, but from a soft recovery on they start at
      attempt 2. */
  lemma {:induction false} SoftPassiveUntilLastAttempt(s: Condition, run: Run)
    requires s.current == UP && s.lastHard == UP && s.attempt == 1 <= s.max && IsSoftPassiveRun(run)
    ensures var k, n := |run| + HeadStart(s), After(s, run);
            && n.max == s.max
            && (run == [] ==> n == s)
            && (run != [] ==> n.current != UP)
            && (run != [] ==> n.attempt == if k <= s.max then k else 1)
            && (run != [] ==> (n.stateType.Soft? <==> k < s.max))
            && (run != [] && k <= s.max ==> n.lastHard == UP)
  {
    hide Next;
    if run != [] {
      var front, last := run[..|run| - 1], run[|run| - 1];
      SoftPassiveUntilLastAttempt(s, front);
      ProblemSeen(After(s, front), last.0, last.1);
    }
  }

  /** What is asked for over them: one announcement at the last attempt and one for every
      result after it. */
  lemma {:induction false} SoftPassiveStreakAsks(s: Condition, run: Run)
    requires s.current == UP && s.lastHard == UP && s.attempt == 1 <= s.max && IsSoftPassiveRun(run)
    requires forall i :: 0 <= i < |run| ==> run[i].1.flexDowntimes == 0
    ensures var k := |run| + HeadStart(s);
            |AllAsked(s, run)| == if k < s.max then 0 else Min(|run|, k - s.max + 1)
  {
    hide Next, Asked;
    if run != [] {
      var front, last := run[..|run| - 1], run[|run| - 1];
      SoftPassiveStreakAsks(s, front);
      SoftPassiveUntilLastAttempt(s, run);
      ProblemSeen(After(s, front), last.0, last.1);
    }
  }

  /** The end of such a run: soft and silent when it was more than one short of the last
      attempt, and then the next problem starts at attempt 2; otherwise hard and announced. */
  lemma SoftPassiveRecovery(s: Condition, run: Run, up: CheckResult, e: Setting, down: CheckResult, f: Setting)
    requires Settled(s) && s.stateType.Hard? && run != [] && IsSoftPassiveRun(run)
    requires IsSoftPassive(up, e) && Reported(up, e) == UP
    requires IsSoftPassive(down, f) && Reported(down, f) != UP
    ensures var n := Next(After(s, run), up, e);
            && (n.stateType.Soft? <==> |run| + 1 < s.max) && n.current == UP && n.attempt == 1
            && (|run| + 1 < s.max ==> Asked(After(s, run), up, e) == [])
            && (|run| + 1 >= s.max ==> Asked(After(s, run), up, e) == [UP])
            && (|run| + 1 < s.max ==> Next(n, down, f).attempt == 2 && Next(n, down, f).stateType.Soft?)
            && (|run| + 1 >= s.max ==> Next(n, down, f).attempt == 1)
  {
    hide Next, Asked;
    SoftPassiveUntilLastAttempt(s, run);
    UpSeen(After(s, run), up, e);
    ProblemSeen(Next(After(s, run), up, e), down, f);
  }

  /** Handling results one after the other comes to what their run says. */
  method HandleAll(hst: Host, run: Run)
    modifies hst
    ensures hst.Now() == After(old(hst.Now()), run)
    ensures hst.requests == old(hst.requests) + AllAsked(old(hst.Now()), run)
  {
    hide Next, Asked;
    for i := 0 to |run|
      invariant hst.Now() == After(old(hst.Now()), run[..i])
      invariant hst.requests == old(hst.requests) + AllAsked(old(hst.Now()), run[..i])
    {
      assert run[..i + 1][..i] == run[..i] && run[..i + 1][i] == run[i];
      var _ := hst.HandleAsyncHostCheckResult(run[i].0, run[i].1);
    }
    assert run[..|run|] == run;
  }
}
