/** The older LED feedback controller of src/rgb_feedback.cpp. It has no
    fades: actions are shown at once, `update` only expires the current
    action and toggles blinking, and nothing takes actions off the queue
    except `startNextAction`, which no code calls. */
module LegacyFeedback {
  import opened Bytes
  import opened RgbActions

  /** Everything the controller changes, apart from its defaults table. */
  datatype LegacyState = LegacyState(
    queue: seq<RgbAction>,
    current: Option<RgbAction>,
    actionStartTime: u32,
    idleStartTime: u32,
    lastUpdateTime: u32,
    blinkState: bool)

  /** The defaults the constructor writes. The entries of
      ACTION_COMM_RECEIVED and ACTION_COMM_TRANSMITTED are never written;
      the controller is a global object, so they hold the zero-initialised
      value (solid, interval 0, duration 0, linear). */
  const LEGACY_DEFAULTS: seq<DefaultConfig> := [
    DefaultConfig(Gradient, 1000, 0, Exponential),  // ACTION_IDLE
    DefaultConfig(Solid, 0, 0, Linear),             // ACTION_COMM_RECEIVED
    DefaultConfig(Solid, 0, 0, Linear),             // ACTION_COMM_TRANSMITTED
    DefaultConfig(Blink, 100, 1500, Linear),        // ACTION_COMM_CONNECTED
    DefaultConfig(Blink, 100, 1500, Linear),        // ACTION_COMM_DISCONNECTED
    DefaultConfig(Gradient, 500, 0, Sinusoidal),    // ACTION_COMM_WAITING
    DefaultConfig(Gradient, 5000, 0, Sinusoidal),   // ACTION_MESH_ACTIVE
    DefaultConfig(Blink, 100, 2000, Linear),        // ACTION_ERROR
    DefaultConfig(Gradient, 2000, 0, Exponential),  // ACTION_WARNING
    DefaultConfig(Pulse, 1000, 0, Linear)           // ACTION_SUCCESS
  ]

  /** Among the default actions, exactly the connection, disconnection and
      error blinks end by themselves. */
  lemma DefaultsThatExpire()
    ensures |LEGACY_DEFAULTS| == ACTION_COUNT
    ensures forall i :: 0 <= i < ACTION_COUNT ==>
      (LEGACY_DEFAULTS[i].duration > 0 <==>
         i == ACTION_COMM_CONNECTED || i == ACTION_COMM_DISCONNECTED || i == ACTION_ERROR)
  {
  }

  /** With the built-in defaults, an action that `setAction` shows at
      `start` is later dropped by `update` exactly when it is the
      connection, disconnection or error blink and its duration has
      elapsed; every other default stays until it is replaced. */
  lemma OnlyBlinksExpire(s: LegacyState, action: DeviceAction, start: u32, now: u32)
    requires action < ACTION_COUNT
    ensures var shown := ShowState(s, FromDefault(action, LEGACY_DEFAULTS[action]).(interpStyle := Linear), start);
      UpdateState(shown, now).current == None <==>
        && (action == ACTION_COMM_CONNECTED || action == ACTION_COMM_DISCONNECTED || action == ACTION_ERROR)
        && Sub32(now, start) >= LEGACY_DEFAULTS[action].duration
  {
    DefaultsThatExpire();
  }

  /** Show `a` from `now` on: it becomes current and its clock starts; an
      idle action also restarts the idle phase clock. */
  function ShowState(s: LegacyState, a: RgbAction, now: u32): LegacyState {
    s.(current := Some(a),
       actionStartTime := now,
       idleStartTime := if a.action == ACTION_IDLE then now else s.idleStartTime)
  }

  /** `startNextAction`: nothing on an empty queue; otherwise the front is
      shown and leaves the queue. */
  function StartNextState(s: LegacyState, now: u32): LegacyState {
    if s.queue == [] then s
    else ShowState(s, s.queue[0], now).(queue := s.queue[1..])
  }

  /** `update()`, without the LED output: without a current action only
      the LED changes; an action with a non-zero duration is dropped once
      that many milliseconds have passed since it started; a blinking
      action toggles once per interval. */
  function UpdateState(s: LegacyState, now: u32): LegacyState {
    if s.current.None? then s
    else
      var a := s.current.value;
      if a.duration > 0 && Sub32(now, s.actionStartTime) >= a.duration then
        s.(current := None)
      else if a.effect == Blink && Sub32(now, s.lastUpdateTime) >= a.interval then
        s.(blinkState := !s.blinkState, lastUpdateTime := now)
      else s
  }

  /** `update` never touches the queue, and it drops the current action
      exactly when it has a non-zero duration that has elapsed, counted
      modulo 2^32. */
  lemma UpdateExpiry(s: LegacyState, now: u32)
    requires s.current.Some?
    ensures var r := UpdateState(s, now);
      && r.queue == s.queue
      && (r.current == None <==>
            s.current.value.duration > 0 && Sub32(now, s.actionStartTime) >= s.current.value.duration)
      && (r.current != None ==> r.current == s.current && r.actionStartTime == s.actionStartTime)
  {
  }

  /** A blinking action that has not expired toggles exactly when a whole
      interval has passed since the last toggle, and records the time. */
  lemma BlinkToggles(s: LegacyState, now: u32)
    requires s.current.Some? && s.current.value.effect == Blink
    requires !(s.current.value.duration > 0 && Sub32(now, s.actionStartTime) >= s.current.value.duration)
    ensures var r := UpdateState(s, now);
      && (r.blinkState != s.blinkState <==> Sub32(now, s.lastUpdateTime) >= s.current.value.interval)
      && (r.blinkState != s.blinkState ==> r.lastUpdateTime == now)
      && (r.blinkState == s.blinkState ==> r == s)
  {
  }

  /** Repeated `startNextAction` calls show the queued actions in queue
      order: after k calls the queue has lost its first k entries and the
      k-th one is current. */
  lemma {:induction false} StartNextInOrder(s: LegacyState, now: u32, k: nat)
    requires 0 < k <= |s.queue|
    ensures var r := StartNextRepeated(s, now, k);
      r.queue == s.queue[k..] && r.current == Some(s.queue[k - 1])
    decreases k
  {
    if k > 1 {
      var s1 := StartNextState(s, now);
      assert s1.queue == s.queue[1..];
      StartNextInOrder(s1, now, k - 1);
      assert s.queue[1..][k - 1..] == s.queue[k..];
    }
  }

  /** k calls of `startNextAction` at the same time. */
  function StartNextRepeated(s: LegacyState, now: u32, k: nat): LegacyState
    decreases k
  {
    if k == 0 then s else StartNextRepeated(StartNextState(s, now), now, k - 1)
  }

  class RgbFeedback {
    /** The defaults table, one entry per action code. */
    const defaults: array<DefaultConfig>
    var actionQueue: seq<RgbAction>
    var currentAction: Option<RgbAction>
    var actionStartTime: u32
    var idleStartTime: u32
    var lastUpdateTime: u32
    var blinkState: bool

    function State(): LegacyState
      reads this
    {
      LegacyState(actionQueue, currentAction, actionStartTime, idleStartTime, lastUpdateTime, blinkState)
    }

    ghost predicate Valid()
      reads this
    {
      defaults.Length == ACTION_COUNT && SortedByPriority(actionQueue)
    }

    /** Nothing shown, nothing queued, clocks at 0, blink state on, the
        built-in defaults. */
    constructor()
      ensures Valid() && fresh(defaults) && defaults[..] == LEGACY_DEFAULTS
      ensures State() == LegacyState([], None, 0, 0, 0, true)
    {
      defaults := new DefaultConfig[ACTION_COUNT](i requires 0 <= i < ACTION_COUNT => LEGACY_DEFAULTS[i]);
      actionQueue := [];
      currentAction := None;
      actionStartTime := 0;
      idleStartTime := 0;
      lastUpdateTime := 0;
      blinkState := true;
    }

    /** `enqueueAction`: append the action and re-sort by priority. */
    method EnqueueAction(action: RgbAction)
      requires Valid()
      modifies this
      ensures Valid()
      ensures multiset(actionQueue) == multiset(old(actionQueue)) + multiset{action}
      ensures State() == old(State()).(queue := actionQueue)
    {
      actionQueue := InsertByPriority(actionQueue, action);
    }

    /** `setImmediateAction`: clear the queue and show a copy of the action
        at once. */
    method SetImmediateAction(action: RgbAction, now: u32)
      requires Valid()
      modifies this
      ensures Valid()
      ensures State() == ShowState(old(State()).(queue := []), action, now)
    {
      actionQueue := [];
      currentAction := Some(action);
      actionStartTime := now;
      if action.action == ACTION_IDLE {
        idleStartTime := actionStartTime;
      }
    }

    /** `setAction`: show the action's defaults at once, priority 0. The
        action is built without an interpolation style, so it is linear
        whatever the defaults entry says. The queue is kept. */
    method SetAction(action: DeviceAction, now: u32)
      requires Valid() && action < ACTION_COUNT
      modifies this
      ensures Valid()
      ensures State() == ShowState(old(State()), FromDefault(action, defaults[action]).(interpStyle := Linear), now)
    {
      currentAction := None;
      var d := defaults[action];
      currentAction := Some(RgbAction(action, d.effect, d.interval, d.duration, 0, Linear));
      actionStartTime := now;
      if action == ACTION_IDLE {
        idleStartTime := actionStartTime;
      }
    }

    /** `update()`, the LED output left out. */
    method Update(now: u32)
      requires Valid()
      modifies this
      ensures Valid()
      ensures State() == UpdateState(old(State()), now)
    {
      if currentAction.None? {
        return;
      }
      if currentAction.value.duration > 0 && Sub32(now, actionStartTime) >= currentAction.value.duration {
        currentAction := None;
        return;
      }
      if currentAction.value.effect == Blink {
        if Sub32(now, lastUpdateTime) >= currentAction.value.interval {
          blinkState := !blinkState;
          lastUpdateTime := now;
        }
      }
    }

    /** `startNextAction`. */
    method StartNextAction(now: u32)
      requires Valid()
      modifies this
      ensures Valid()
      ensures State() == StartNextState(old(State()), now)
    {
      if actionQueue == [] {
        return;
      }
      currentAction := Some(actionQueue[0]);
      actionStartTime := now;
      if currentAction.value.action == ACTION_IDLE {
        idleStartTime := actionStartTime;
      }
      SortedSuffix(actionQueue, 1);
      actionQueue := actionQueue[1..];
    }

    /** `setFeedbackConfig`: replace the defaults of a valid action code
        (the interpolation style is value-initialised to linear); ignore
        any other code. */
    method SetFeedbackConfig(action: nat, effect: EffectType, interval: u32, duration: u32)
      requires Valid()
      modifies defaults
      ensures action < ACTION_COUNT ==>
        defaults[..] == old(defaults[..])[action := DefaultConfig(effect, interval, duration, Linear)]
      ensures action >= ACTION_COUNT ==> defaults[..] == old(defaults[..])
    {
      if action < ACTION_COUNT {
        defaults[action] := DefaultConfig(effect, interval, duration, Linear);
      }
    }
  }
}
