/** The LED feedback actions of include/rgb/rgb_action.h, without their
    colours and brightness (floating point, used only to drive the LED),
    and the priority-ordered action queue both feedback controllers keep. */
module RgbActions {
  import opened Bytes

  datatype EffectType = Solid | Blink | Pulse | Gradient

  datatype InterpolationStyle = Linear | Sinusoidal | Exponential | Quadratic | Cubic

  /** A `DeviceAction` is its enumerator's code: it indexes the defaults
      table. */
  type DeviceAction = nat

  const ACTION_IDLE: DeviceAction := 0
  const ACTION_COMM_RECEIVED: DeviceAction := 1
  const ACTION_COMM_TRANSMITTED: DeviceAction := 2
  const ACTION_COMM_CONNECTED: DeviceAction := 3
  const ACTION_COMM_DISCONNECTED: DeviceAction := 4
  const ACTION_COMM_WAITING: DeviceAction := 5
  const ACTION_MESH_ACTIVE: DeviceAction := 6
  const ACTION_ERROR: DeviceAction := 7
  const ACTION_WARNING: DeviceAction := 8
  const ACTION_SUCCESS: DeviceAction := 9
  /** The number of actions, the size of the defaults table. */
  const ACTION_COUNT: nat := 10

  /** The transition time used by every call in the controller, in ms. */
  const DEFAULT_TRANSITION_DURATION: u32 := 200

  /** An `RGBAction`: `interval` is the effect period and `duration` the
      lifetime (0 = until replaced), both in milliseconds. */
  datatype RgbAction = RgbAction(
    action: DeviceAction,
    effect: EffectType,
    interval: u32,
    duration: u32,
    priority: byte,
    interpStyle: InterpolationStyle)

  /** An entry of the defaults table (`DefaultConfig`). */
  datatype DefaultConfig = DefaultConfig(
    effect: EffectType,
    interval: u32,
    duration: u32,
    interpStyle: InterpolationStyle)

  /** The action the controller builds from a defaults entry: priority 0. */
  function FromDefault(action: DeviceAction, d: DefaultConfig): (a: RgbAction)
    ensures a.action == action && a.priority == 0
    ensures a.effect == d.effect && a.interval == d.interval && a.duration == d.duration
    ensures a.interpStyle == d.interpStyle
  {
    RgbAction(action, d.effect, d.interval, d.duration, 0, d.interpStyle)
  }

  /** The order `std::sort` establishes with the comparator
      `a.priority > b.priority`: non-increasing priority. */
  predicate SortedByPriority(q: seq<RgbAction>) {
    forall i, j :: 0 <= i < j < |q| ==> q[i].priority >= q[j].priority
  }

  /** Every suffix of a sorted queue is sorted. */
  lemma SortedSuffix(q: seq<RgbAction>, k: nat)
    requires SortedByPriority(q) && k <= |q|
    ensures SortedByPriority(q[k..])
  {
    forall i, j | 0 <= i < j < |q| - k ensures q[k..][i].priority >= q[k..][j].priority {
      assert q[k..][i] == q[k + i] && q[k..][j] == q[k + j];
    }
  }

  /** One way to place a new action in a sorted queue: after every action
      of at least its priority. */
  function InsertByPriority(q: seq<RgbAction>, a: RgbAction): (r: seq<RgbAction>)
    requires SortedByPriority(q)
    ensures SortedByPriority(r)
    ensures multiset(r) == multiset(q) + multiset{a}
    ensures |r| == |q| + 1
  {
    if q == [] then [a]
    else if q[0].priority >= a.priority then
      SortedSuffix(q, 1);
      var rest := InsertByPriority(q[1..], a);
      InsertBehindFront(q, a, rest);
      [q[0]] + rest
    else
      SortedCons(a, q);
      [a] + q
  }

  /** An action of at least every queued priority can go in front. */
  lemma SortedCons(a: RgbAction, q: seq<RgbAction>)
    requires SortedByPriority(q) && (q != [] ==> a.priority >= q[0].priority)
    ensures SortedByPriority([a] + q)
  {
    forall i, j | 0 <= i < j < |q| + 1 ensures ([a] + q)[i].priority >= ([a] + q)[j].priority {
      if i == 0 && j > 1 {
        assert q[0].priority >= q[j - 1].priority;
      }
    }
  }

  /** The step of `InsertByPriority` that keeps the front and inserts
      behind it. */
  lemma InsertBehindFront(q: seq<RgbAction>, a: RgbAction, rest: seq<RgbAction>)
    requires SortedByPriority(q) && q != [] && q[0].priority >= a.priority
    requires SortedByPriority(rest) && multiset(rest) == multiset(q[1..]) + multiset{a}
    ensures SortedByPriority([q[0]] + rest)
    ensures multiset([q[0]] + rest) == multiset(q) + multiset{a}
  {
    assert q == [q[0]] + q[1..];
    if rest != [] {
      assert rest[0] in multiset(q[1..]) + multiset{a};
      if rest[0] != a {
        assert rest[0] in q[1..];
      }
    }
    SortedCons(q[0], rest);
  }

  /** Actions of equal priority keep their queue order: a new action goes
      behind every queued one of the same or higher priority. */
  lemma {:induction false} InsertAfterEqual(q: seq<RgbAction>, a: RgbAction)
    requires SortedByPriority(q)
    requires forall i :: 0 <= i < |q| ==> q[i].priority >= a.priority
    ensures InsertByPriority(q, a) == q + [a]
  {
    if q != [] {
      InsertAfterEqual(q[1..], a);
      assert q == [q[0]] + q[1..];
    }
  }

  /** The queue without its leading idle actions. */
  function DropLeadingIdle(q: seq<RgbAction>): (r: seq<RgbAction>)
    ensures |r| <= |q| && r == q[|q| - |r|..]
    ensures r != [] ==> r[0].action != ACTION_IDLE
    ensures forall i :: 0 <= i < |q| - |r| ==> q[i].action == ACTION_IDLE
  {
    if q == [] || q[0].action != ACTION_IDLE then q
    else DropLeadingIdle(q[1..])
  }

  /** Dropping the leading idle actions, and then the front, keeps a
      queue sorted. */
  lemma DropLeadingIdleSorted(q: seq<RgbAction>)
    requires SortedByPriority(q)
    ensures SortedByPriority(DropLeadingIdle(q))
    ensures DropLeadingIdle(q) != [] ==> SortedByPriority(DropLeadingIdle(q)[1..])
  {
    var r := DropLeadingIdle(q);
    SortedSuffix(q, |q| - |r|);
    if r != [] {
      SortedSuffix(r, 1);
    }
  }
}
