/** The LED feedback controller of src/rgb/rgb_feedback.cpp as a state
    machine. The controller keeps a priority-ordered queue of actions, the
    action being shown (`currentAction`), the action being faded to
    (`pendingAction`) and a few millisecond timestamps; `update` is called
    periodically and moves it on. Times are `uint32_t` readings of
    `millis()`, passed in as `now`, and every elapsed time is a 32-bit
    wrap-around difference. The pointers the source allocates are owned
    copies, so they are optional values here. */
module Feedback {
  import opened Bytes
  import opened RgbActions

  /** Everything the controller changes, apart from its defaults table. */
  datatype FeedbackState = FeedbackState(
    queue: seq<RgbAction>,
    current: Option<RgbAction>,
    pending: Option<RgbAction>,
    inTransition: bool,
    actionStartTime: u32,
    idleStartTime: u32,
    lastUpdateTime: u32,
    blinkState: bool,
    transitionStartTime: u32,
    transitionDuration: u32)

  /** The queue is sorted, and a pending action exists exactly during a
      transition. */
  predicate Inv(s: FeedbackState) {
    SortedByPriority(s.queue) && (s.inTransition <==> s.pending.Some?)
  }

  predicate IsIdle(a: Option<RgbAction>) {
    a.Some? && a.value.action == ACTION_IDLE
  }

  /** `transitionToAction(a, fade)`: start fading to `a`. For an idle
      target the idle phase clock restarts at `now` unless the current
      action is not idle and a phase was already running. */
  function TransitionState(s: FeedbackState, a: RgbAction, fade: u32, now: u32): FeedbackState {
    var keepIdlePhase := !IsIdle(s.current) && s.idleStartTime != 0;
    s.(idleStartTime := if a.action == ACTION_IDLE && !keepIdlePhase then now else s.idleStartTime,
       transitionStartTime := now,
       transitionDuration := fade,
       pending := Some(a),
       inTransition := true)
  }

  /** `startNextAction`: drop the idle actions at the front of the queue,
      then fade to the first remaining one, if any. */
  function StartNextState(s: FeedbackState, now: u32): FeedbackState {
    var q := DropLeadingIdle(s.queue);
    if q == [] then s.(queue := [])
    else TransitionState(s.(queue := q[1..]), q[0], DEFAULT_TRANSITION_DURATION, now)
  }

  /** Whether the current action has run out: a non-zero duration and at
      least that many milliseconds since it started. */
  predicate Expired(s: FeedbackState, now: u32) {
    s.current.Some? && s.current.value.duration > 0 &&
    Sub32(now, s.actionStartTime) >= s.current.value.duration
  }

  /** `update()`, without the LED output. A transition completes once its
      duration has elapsed (the fade parameter reaching 1.0). Otherwise an
      idle current action gives way to a queued one; a missing or expired
      current action is replaced by fading to the queue front, or to the
      idle default when the queue is empty; a blinking action toggles once
      per interval. */
  function UpdateState(s: FeedbackState, idleDefault: DefaultConfig, now: u32): FeedbackState
    requires s.inTransition ==> s.pending.Some?
  {
    if s.inTransition then
      if Sub32(now, s.transitionStartTime) >= s.transitionDuration then
        s.(current := s.pending,
           pending := None,
           inTransition := false,
           actionStartTime := now,
           idleStartTime := if s.pending.value.action == ACTION_IDLE && s.idleStartTime == 0
                            then now else s.idleStartTime)
      else s
    else if IsIdle(s.current) && s.queue != [] then
      StartNextState(s, now)
    else if s.current.None? || Expired(s, now) then
      var next :=
        if s.queue != [] then
          TransitionState(s.(queue := s.queue[1..]), s.queue[0], DEFAULT_TRANSITION_DURATION, now)
        else if !IsIdle(s.current) then
          TransitionState(s, FromDefault(ACTION_IDLE, idleDefault), DEFAULT_TRANSITION_DURATION, now)
        else s;
      next.(current := None)
    else if s.current.value.effect == Blink && Sub32(now, s.lastUpdateTime) >= s.current.value.interval then
      s.(blinkState := !s.blinkState, lastUpdateTime := now)
    else s
  }

  /** Every step keeps the queue sorted and the pending action present
      exactly during a transition. */
  lemma UpdateKeepsInv(s: FeedbackState, idleDefault: DefaultConfig, now: u32)
    requires Inv(s)
    ensures Inv(UpdateState(s, idleDefault, now))
  {
    if !s.inTransition && s.queue != [] {
      SortedSuffix(s.queue, 1);
      DropLeadingIdleSorted(s.queue);
    }
  }

  /** Once the transition time has elapsed (modulo 2^32), the pending action
      becomes current, the transition ends and the action clock starts;
      the queue is untouched. */
  lemma TransitionCompletes(s: FeedbackState, idleDefault: DefaultConfig, now: u32)
    requires Inv(s) && s.inTransition
    requires Sub32(now, s.transitionStartTime) >= s.transitionDuration
    ensures var r := UpdateState(s, idleDefault, now);
      && r.current == s.pending && r.pending == None && !r.inTransition
      && r.actionStartTime == now && r.queue == s.queue
  {
  }

  /** Before the transition time has elapsed, `update` changes nothing but
      the LED. */
  lemma TransitionWaits(s: FeedbackState, idleDefault: DefaultConfig, now: u32)
    requires Inv(s) && s.inTransition
    requires Sub32(now, s.transitionStartTime) < s.transitionDuration
    ensures UpdateState(s, idleDefault, now) == s
  {
  }

  /** An action with duration 0 never expires: as long as nothing is
      queued behind an idle action, `update` keeps it current and leaves
      the queue alone. */
  lemma ZeroDurationNeverExpires(s: FeedbackState, idleDefault: DefaultConfig, now: u32)
    requires Inv(s) && !s.inTransition
    requires s.current.Some? && s.current.value.duration == 0
    requires !(IsIdle(s.current) && s.queue != [])
    ensures var r := UpdateState(s, idleDefault, now);
      r.current == s.current && r.queue == s.queue && !r.inTransition
  {
  }

  /** An expired action with something queued: the queue front is popped
      into a transition and the current action is cleared. */
  lemma ExpiryPopsFront(s: FeedbackState, idleDefault: DefaultConfig, now: u32)
    requires Inv(s) && !s.inTransition && !IsIdle(s.current)
    requires Expired(s, now) && s.queue != []
    ensures var r := UpdateState(s, idleDefault, now);
      && r.current == None && r.pending == Some(s.queue[0]) && r.queue == s.queue[1..]
      && r.inTransition && r.transitionStartTime == now
      && r.transitionDuration == DEFAULT_TRANSITION_DURATION
  {
  }

  /** An expired non-idle action with nothing queued: the controller fades
      to the idle default. */
  lemma ExpiryFallsBackToIdle(s: FeedbackState, idleDefault: DefaultConfig, now: u32)
    requires Inv(s) && !s.inTransition && !IsIdle(s.current)
    requires Expired(s, now) && s.queue == []
    ensures var r := UpdateState(s, idleDefault, now);
      && r.current == None && r.pending == Some(FromDefault(ACTION_IDLE, idleDefault))
      && r.inTransition && r.queue == []
  {
  }

  /** With no current action, `update` fades to the queue front, which
      leaves the queue, or to the idle default when the queue is empty. */
  lemma NothingShownTakesQueue(s: FeedbackState, idleDefault: DefaultConfig, now: u32)
    requires Inv(s) && !s.inTransition && s.current.None?
    ensures var r := UpdateState(s, idleDefault, now);
      && r.current == None && r.inTransition
      && r.transitionStartTime == now && r.transitionDuration == DEFAULT_TRANSITION_DURATION
      && (s.queue != [] ==> r.pending == Some(s.queue[0]) && r.queue == s.queue[1..])
      && (s.queue == [] ==> r.pending == Some(FromDefault(ACTION_IDLE, idleDefault)) && r.queue == [])
  {
  }

  /** With an idle current action and a non-empty queue, `update` skips the
      idle entries at the front and fades to the first other one, which
      leaves the queue with everything behind it; when there is none the
      queue ends up empty and nothing else changes. */
  lemma IdleGivesWayToQueue(s: FeedbackState, idleDefault: DefaultConfig, now: u32)
    requires Inv(s) && !s.inTransition && IsIdle(s.current) && s.queue != []
    ensures var r := UpdateState(s, idleDefault, now);
      if exists i :: 0 <= i < |s.queue| && s.queue[i].action != ACTION_IDLE then
        exists i :: 0 <= i < |s.queue| && s.queue[i].action != ACTION_IDLE
          && (forall j :: 0 <= j < i ==> s.queue[j].action == ACTION_IDLE)
          && r.pending == Some(s.queue[i]) && r.queue == s.queue[i + 1..]
          && r.inTransition && r.current == s.current
      else
        r == s.(queue := [])
  {
    var q := DropLeadingIdle(s.queue);
    var i := |s.queue| - |q|;
    var r := UpdateState(s, idleDefault, now);
    assert r == StartNextState(s, now);
    if q != [] {
      assert r == TransitionState(s.(queue := q[1..]), q[0], DEFAULT_TRANSITION_DURATION, now);
      assert s.queue[i] == q[0];
      assert q[1..] == s.queue[i + 1..];
    } else {
      forall k | 0 <= k < |s.queue| ensures s.queue[k].action == ACTION_IDLE { }
    }
  }

  /** A blinking action that has not expired toggles exactly when a whole
      interval has passed since the last toggle. */
  lemma BlinkToggles(s: FeedbackState, idleDefault: DefaultConfig, now: u32)
    requires Inv(s) && !s.inTransition && s.current.Some? && !Expired(s, now)
    requires !(IsIdle(s.current) && s.queue != [])
    requires s.current.value.effect == Blink
    ensures var r := UpdateState(s, idleDefault, now);
      && (r.blinkState != s.blinkState <==> Sub32(now, s.lastUpdateTime) >= s.current.value.interval)
      && (r.blinkState != s.blinkState ==> r.lastUpdateTime == now)
      && r.current == s.current && r.queue == s.queue
  {
  }

  /** The idle phase clock is only restarted by fading to an idle action
      from an idle action or from a state without a phase: fading to a
      non-idle action, or to idle from a non-idle action while a phase is
      running, keeps it. */
  lemma IdlePhaseKept(s: FeedbackState, a: RgbAction, fade: u32, now: u32)
    requires a.action != ACTION_IDLE || (!IsIdle(s.current) && s.idleStartTime != 0)
    ensures TransitionState(s, a, fade, now).idleStartTime == s.idleStartTime
  {
  }

  /** The loop at the head of `startNextAction`: erase the front while it
      is idle. */
  method SkipIdle(queue: seq<RgbAction>) returns (q: seq<RgbAction>)
    ensures q == DropLeadingIdle(queue)
  {
    q := queue;
    while q != [] && q[0].action == ACTION_IDLE
      invariant DropLeadingIdle(q) == DropLeadingIdle(queue)
      decreases |q|
    {
      q := q[1..];
    }
  }

  class RgbFeedback {
    /** The defaults table, one entry per action code. */
    const defaults: array<DefaultConfig>
    var actionQueue: seq<RgbAction>
    var currentAction: Option<RgbAction>
    var pendingAction: Option<RgbAction>
    var actionStartTime: u32
    var idleStartTime: u32
    var lastUpdateTime: u32
    var blinkState: bool
    var inTransition: bool
    var transitionStartTime: u32
    var transitionDuration: u32

    function State(): FeedbackState
      reads this
    {
      FeedbackState(actionQueue, currentAction, pendingAction, inTransition, actionStartTime,
                    idleStartTime, lastUpdateTime, blinkState, transitionStartTime, transitionDuration)
    }

    ghost predicate Valid()
      reads this
    {
      defaults.Length == ACTION_COUNT && Inv(State())
    }

    /** Nothing shown, nothing queued, clocks at 0, blink state on. The
        defaults table is filled by `initializeDefaults`, which is not part
        of this model, so it is passed in. */
    constructor(table: seq<DefaultConfig>)
      requires |table| == ACTION_COUNT
      ensures Valid() && fresh(defaults) && defaults[..] == table
      ensures State() == FeedbackState([], None, None, false, 0, 0, 0, true, 0, 0)
    {
      defaults := new DefaultConfig[ACTION_COUNT](i requires 0 <= i < ACTION_COUNT => table[i]);
      actionQueue := [];
      currentAction := None;
      pendingAction := None;
      inTransition := false;
      actionStartTime := 0;
      idleStartTime := 0;
      lastUpdateTime := 0;
      blinkState := true;
      transitionStartTime := 0;
      transitionDuration := 0;
    }

    /** `transitionToAction`. */
    method TransitionToAction(newAction: RgbAction, fadeDuration: u32, now: u32)
      modifies this
      ensures State() == TransitionState(old(State()), newAction, fadeDuration, now)
    {
      if newAction.action == ACTION_IDLE {
        if !(currentAction.Some? && currentAction.value.action == ACTION_IDLE) && idleStartTime != 0 {
          // continue the running idle phase
        } else {
          idleStartTime := now;
        }
      }
      transitionStartTime := now;
      transitionDuration := fadeDuration;
      pendingAction := Some(newAction);
      inTransition := true;
    }

    /** `enqueueAction`: ignore the idle action; otherwise queue the
        action's defaults at priority 0 and re-sort by priority. */
    method EnqueueAction(action: DeviceAction)
      requires Valid() && action < ACTION_COUNT
      modifies this
      ensures Valid()
      ensures action == ACTION_IDLE ==> State() == old(State())
      ensures action != ACTION_IDLE ==>
        && SortedByPriority(actionQueue)
        && multiset(actionQueue) == multiset(old(actionQueue)) + multiset{FromDefault(action, defaults[action])}
        && State() == old(State()).(queue := actionQueue)
    {
      if action == ACTION_IDLE {
        return;
      }
      var d := defaults[action];
      var rgbAction := FromDefault(action, d);
      actionQueue := InsertByPriority(actionQueue, rgbAction);
    }

    /** `setImmediateAction`: clear the queue and the current action, then
        fade to the given action. */
    method SetImmediateAction(action: RgbAction, now: u32)
      requires Valid()
      modifies this
      ensures Valid()
      ensures State() == TransitionState(old(State()).(queue := [], current := None),
                                         action, DEFAULT_TRANSITION_DURATION, now)
    {
      actionQueue := [];
      currentAction := None;
      TransitionToAction(action, DEFAULT_TRANSITION_DURATION, now);
    }

    /** `setAction`: fade to the action's defaults, priority 0; the queue
        and the current action stay until the fade completes. */
    method SetAction(action: DeviceAction, now: u32)
      requires Valid() && action < ACTION_COUNT
      modifies this
      ensures Valid()
      ensures State() == TransitionState(old(State()), FromDefault(action, defaults[action]),
                                         DEFAULT_TRANSITION_DURATION, now)
    {
      var d := defaults[action];
      var newAction := FromDefault(action, d);
      TransitionToAction(newAction, DEFAULT_TRANSITION_DURATION, now);
    }

    /** `startNextAction`. */
    method StartNextAction(now: u32)
      requires Valid()
      modifies this
      ensures Valid()
      ensures State() == StartNextState(old(State()), now)
    {
      ghost var s0 := State();
      DropLeadingIdleSorted(actionQueue);
      var q := SkipIdle(actionQueue);
      if q == [] {
        actionQueue := [];
        assert StartNextState(s0, now) == s0.(queue := []);
        return;
      }
      assert StartNextState(s0, now)
          == TransitionState(s0.(queue := q[1..]), q[0], DEFAULT_TRANSITION_DURATION, now);
      actionQueue := q[1..];
      assert State() == s0.(queue := q[1..]);
      TransitionToAction(q[0], DEFAULT_TRANSITION_DURATION, now);
    }

    /** The part of `update()` that leaves the current action: fade to the
        queue front, or else to the idle default unless idle is showing;
        either way nothing is current any more. */
    method ReplaceCurrent(now: u32)
      requires Valid() && !inTransition
      modifies this
      ensures Valid()
      ensures State() ==
        (if old(actionQueue) != [] then
           TransitionState(old(State()).(queue := old(actionQueue)[1..]), old(actionQueue)[0], DEFAULT_TRANSITION_DURATION, now)
         else if !IsIdle(old(currentAction)) then
           TransitionState(old(State()), FromDefault(ACTION_IDLE, defaults[ACTION_IDLE]), DEFAULT_TRANSITION_DURATION, now)
         else old(State())).(current := None)
    {
      ghost var s0 := State();
      if actionQueue != [] {
        var nextAction := actionQueue[0];
        SortedSuffix(actionQueue, 1);
        actionQueue := actionQueue[1..];
        assert State() == s0.(queue := s0.queue[1..]);
        TransitionToAction(nextAction, DEFAULT_TRANSITION_DURATION, now);
      } else if currentAction.None? || currentAction.value.action != ACTION_IDLE {
        var idleConfig := defaults[ACTION_IDLE];
        TransitionToAction(FromDefault(ACTION_IDLE, idleConfig), DEFAULT_TRANSITION_DURATION, now);
      }
      currentAction := None;
    }

    /** `update()`, the LED output left out. */
    method Update(now: u32)
      requires Valid()
      modifies this
      ensures Valid()
      ensures State() == UpdateState(old(State()), defaults[ACTION_IDLE], now)
    {
      ghost var s0 := State();
      ghost var idle := defaults[ACTION_IDLE];
      UpdateKeepsInv(s0, idle, now);
      if inTransition {
        var elapsed := Sub32(now, transitionStartTime);
        // the fade parameter reaches 1.0 once the whole duration has elapsed
        if elapsed >= transitionDuration {
          currentAction := pendingAction;
          pendingAction := None;
          inTransition := false;
          actionStartTime := now;
          if currentAction.value.action == ACTION_IDLE && idleStartTime == 0 {
            idleStartTime := now;
          }
        }
        return;
      }
      if currentAction.Some? && currentAction.value.action == ACTION_IDLE && actionQueue != [] {
        assert UpdateState(s0, idle, now) == StartNextState(s0, now);
        StartNextAction(now);
        return;
      }
      if currentAction.None? ||
         (currentAction.value.duration > 0 && Sub32(now, actionStartTime) >= currentAction.value.duration) {
        ReplaceCurrent(now);
        return;
      }
      assert UpdateState(s0, idle, now) ==
        if s0.current.value.effect == Blink && Sub32(now, s0.lastUpdateTime) >= s0.current.value.interval
        then s0.(blinkState := !s0.blinkState, lastUpdateTime := now)
        else s0;
      if currentAction.value.effect == Blink {
        if Sub32(now, lastUpdateTime) >= currentAction.value.interval {
          blinkState := !blinkState;
          lastUpdateTime := now;
        }
      }
    }

    /** `setFeedbackConfig`: replace the defaults of a valid action code,
        with linear interpolation; ignore any other code. */
    method SetFeedbackConfig(action: nat, effect: EffectType, interval: u32, duration: u32)
      requires Valid()
      modifies defaults
      ensures action < ACTION_COUNT ==>
        defaults[..] == old(defaults[..])[action := DefaultConfig(effect, interval, duration, Linear)]
      ensures action >= ACTION_COUNT ==> defaults[..] == old(defaults[..])
    {
      if action < ACTION_COUNT {
        defaults[action] := DefaultConfig(effect, interval, duration, Linear);
      }
    }
  }
}
