/** The concurrent queue: its lock regions, and the threads that sleep and are notified around them. */
module ConcurrentQueue {
  import opened Common

  datatype Policy = DropOldest | RejectNew

  /** `maxSize` 0 means no bound. */
  datatype Config = Config(maxSize: nat, policy: Policy)

  // The lock regions

  datatype Outcome = Appended | Displaced | Rejected

  /** What `emplace_impl` does with a new item. */
  function OutcomeOf(size: nat, c: Config): Outcome {
    if c.maxSize == 0 || size < c.maxSize then Appended
    else if c.policy == DropOldest then Displaced
    else Rejected
  }

  function Pushed<T>(queue: seq<T>, v: T, c: Config): seq<T> {
    match OutcomeOf(|queue|, c)
    case Appended => queue + [v]
    case Displaced => (if queue == [] then [] else queue[1..]) + [v]
    case Rejected => queue
  }

  class ConcurrentQueue<T> {
    var queue: seq<T>
    const config: Config

    constructor (maxSize: nat, policy: Policy)
      ensures queue == [] && config == Config(maxSize, policy)
    {
      queue := [];
      config := Config(maxSize, policy);
    }

    /** The lock region of `emplace_impl`; the caller must notify when it succeeds. */
    method EmplaceImpl(v: T) returns (accepted: bool)
      modifies this
      ensures queue == Pushed(old(queue), v, config)
      ensures accepted <==> !OutcomeOf(|old(queue)|, config).Rejected?
      ensures config.maxSize == 0 || |old(queue)| < config.maxSize ==> accepted && queue == old(queue) + [v]
      ensures !accepted <==> 0 < config.maxSize <= |old(queue)| && config.policy == RejectNew
      ensures !accepted ==> queue == old(queue)
      ensures 0 < config.maxSize <= |old(queue)| && config.policy == DropOldest ==> queue == old(queue)[1..] + [v]
    {
      if config.maxSize == 0 {
        queue := queue + [v];
        return true;
      }
      if |queue| >= config.maxSize {
        if config.policy == DropOldest {
          queue := queue[1..];
          queue := queue + [v];
          return true;
        } else {
          return false;
        }
      }
      queue := queue + [v];
      return true;
    }

    /** The lock region of `try_dequeue`, and one round of the loop in `wait_dequeue`. */
    method TryDequeue() returns (out: Option<T>)
      modifies this
      ensures if old(queue) == [] then out == None && queue == []
              else out == Some(old(queue)[0]) && old(queue) == [out.value] + queue
    {
      if queue == [] { return None; }
      out := Some(queue[0]);
      queue := queue[1..];
    }

    method DequeueIf(pred: (T, nat) -> bool) returns (out: Option<T>)
      modifies this
      ensures if old(queue) == [] || !pred(old(queue)[0], |old(queue)|) then out == None && queue == old(queue)
              else out == Some(old(queue)[0]) && old(queue) == [out.value] + queue
    {
      if queue == [] { return None; }
      var size := |queue|;
      var head := queue[0];
      if !pred(head, size) { return None; }
      out := Some(queue[0]);
      queue := queue[1..];
    }

    method Clear() returns (removed: nat)
      modifies this
      ensures queue == [] && removed == |old(queue)|
    {
      removed := |queue|;
      queue := [];
    }
  }

  // The threads

  type Thread = nat

  /** Between operations; unlocked after a push but not yet through `notify_one`; asleep on the
      condition; or awake again, by a notification or spuriously, and about to take the lock. */
  datatype Phase = Idle | Notifying | Sleeping | Notified | Spurious

  /** How an item left the queue. */
  datatype Departure<T> = Dequeued(item: T, taker: Thread) | Dropped(item: T) | Cleared(item: T)

  /** The queue and the threads, with the history of items accepted and departed and of rejections. */
  datatype State<T> = State(queue: seq<T>, phases: map<Thread, Phase>,
                            accepted: seq<T>, departed: seq<Departure<T>>, rejections: nat)

  datatype Step<!T> =
    | Enqueue(t: Thread, v: T)
    | NotifyOne(t: Thread, woken: Option<Thread>)
    | Wait(t: Thread)
    | WakeSpuriously(t: Thread)
    | Resume(t: Thread)
    | TakeOne(t: Thread)
    | TakeIf(t: Thread, pred: (T, nat) -> bool)
    | ClearAll(t: Thread)

  predicate InPhase(phases: map<Thread, Phase>, t: Thread, p: Phase) {
    t in phases && phases[t] == p
  }

  /** The threads in phase `p`. */
  function Those(phases: map<Thread, Phase>, p: Phase): set<Thread> {
    set t | t in phases && phases[t] == p
  }

  function Count(phases: map<Thread, Phase>, p: Phase): nat {
    |Those(phases, p)|
  }

  predicate Awake(phases: map<Thread, Phase>, t: Thread) {
    InPhase(phases, t, Notified) || InPhase(phases, t, Spurious)
  }

  /** A notification wakes any one sleeper, and is lost only when there is none. */
  predicate Enabled<T>(s: State<T>, step: Step<T>) {
    match step
    case NotifyOne(t, woken) =>
      InPhase(s.phases, t, Notifying) &&
      (if woken.Some? then InPhase(s.phases, woken.value, Sleeping) else Those(s.phases, Sleeping) == {})
    case WakeSpuriously(t) => InPhase(s.phases, t, Sleeping)
    case Resume(t) => Awake(s.phases, t)
    case _ => InPhase(s.phases, step.t, Idle)
  }

  /** The head goes to thread `t`, which is then between operations. */
  function Taken<T>(s: State<T>, t: Thread): State<T>
    requires s.queue != []
  {
    s.(queue := s.queue[1..], phases := s.phases[t := Idle], departed := s.departed + [Dequeued(s.queue[0], t)])
  }

  /** A consumer with the lock: it takes the head or goes to sleep. */
  function TakeOrSleep<T>(s: State<T>, t: Thread): State<T> {
    if s.queue == [] then s.(phases := s.phases[t := Sleeping]) else Taken(s, t)
  }

  function ClearedAll<T>(queue: seq<T>): (d: seq<Departure<T>>)
    ensures |d| == |queue|
    ensures forall i :: 0 <= i < |queue| ==> d[i] == Cleared(queue[i])
  {
    seq(|queue|, i requires 0 <= i < |queue| => Cleared(queue[i]))
  }

  function Enqueued<T>(s: State<T>, t: Thread, v: T, c: Config): State<T> {
    match OutcomeOf(|s.queue|, c)
    case Rejected => s.(rejections := s.rejections + 1)
    case Appended =>
      s.(queue := Pushed(s.queue, v, c), accepted := s.accepted + [v], phases := s.phases[t := Notifying])
    case Displaced =>
      s.(queue := Pushed(s.queue, v, c), accepted := s.accepted + [v], phases := s.phases[t := Notifying],
         departed := s.departed + (if s.queue == [] then [] else [Dropped(s.queue[0])]))
  }

  function Next<T>(s: State<T>, step: Step<T>, c: Config): State<T> {
    match step
    case Enqueue(t, v) => Enqueued(s, t, v, c)
    case NotifyOne(t, woken) =>
      var phases := s.phases[t := Idle];
      s.(phases := if woken.Some? then phases[woken.value := Notified] else phases)
    case Wait(t) => TakeOrSleep(s, t)
    case WakeSpuriously(t) => s.(phases := s.phases[t := Spurious])
    case Resume(t) => TakeOrSleep(s, t)
    case TakeOne(t) => if s.queue == [] then s else Taken(s, t)
    case TakeIf(t, pred) => if s.queue == [] || !pred(s.queue[0], |s.queue|) then s else Taken(s, t)
    case ClearAll(t) => s.(queue := [], departed := s.departed + ClearedAll(s.queue))
  }

  ghost predicate Initial<T>(s: State<T>) {
    && s.queue == [] && s.accepted == [] && s.departed == [] && s.rejections == 0
    && forall t :: t in s.phases ==> s.phases[t] == Idle
  }

  ghost predicate IsStep<T>(s: State<T>, step: Step<T>, s': State<T>, c: Config) {
    Enabled(s, step) && s' == Next(s, step, c)
  }

  /** A run from an initial state, of any length, by any number of threads. */
  ghost predicate IsRun<T>(states: seq<State<T>>, steps: seq<Step<T>>, c: Config) {
    && |states| == |steps| + 1 && Initial(states[0])
    && forall i :: 0 <= i < |steps| ==> IsStep(states[i], steps[i], states[i + 1], c)
  }

  // No wake-up is lost

  /** When somebody sleeps un-notified, every item is owed to a notified consumer that has not run
      yet or to a push that has not notified yet. */
  ghost predicate WakeUpsOwed<T>(s: State<T>) {
    Those(s.phases, Sleeping) != {} ==> |s.queue| <= Count(s.phases, Notified) + Count(s.phases, Notifying)
  }

  lemma CountAfter(phases: map<Thread, Phase>, t: Thread, p: Phase, q: Phase)
    requires t in phases
    ensures Count(phases[t := p], q)
         == Count(phases, q) - (if phases[t] == q then 1 else 0) + (if p == q then 1 else 0)
  {
    var before, after := Those(phases, q), Those(phases[t := p], q);
    if p == q {
      assert after == before + {t};
    } else {
      assert after == before - {t};
    }
  }

  lemma SleepersAfter(phases: map<Thread, Phase>, t: Thread, p: Phase)
    requires p != Sleeping
    ensures Those(phases[t := p], Sleeping) <= Those(phases, Sleeping)
  {}

  lemma EnqueueKeepsOwed<T>(s: State<T>, t: Thread, v: T, c: Config)
    requires WakeUpsOwed(s) && InPhase(s.phases, t, Idle)
    ensures WakeUpsOwed(Enqueued(s, t, v, c))
  {
    hide Those, Count;
    CountAfter(s.phases, t, Notifying, Notifying);
    CountAfter(s.phases, t, Notifying, Notified);
    SleepersAfter(s.phases, t, Notifying);
  }

  lemma NotifyKeepsOwed<T>(s: State<T>, t: Thread, woken: Option<Thread>, c: Config)
    requires WakeUpsOwed(s) && Enabled(s, NotifyOne(t, woken))
    ensures WakeUpsOwed(Next(s, NotifyOne(t, woken), c))
  {
    hide Those, Count;
    CountAfter(s.phases, t, Idle, Notifying);
    CountAfter(s.phases, t, Idle, Notified);
    SleepersAfter(s.phases, t, Idle);
    if woken.Some? {
      var phases := s.phases[t := Idle];
      CountAfter(phases, woken.value, Notified, Notifying);
      CountAfter(phases, woken.value, Notified, Notified);
      SleepersAfter(phases, woken.value, Notified);
      SleeperExists(s.phases, woken.value);
    }
  }

  lemma SleeperExists(phases: map<Thread, Phase>, t: Thread)
    requires InPhase(phases, t, Sleeping)
    ensures Those(phases, Sleeping) != {}
  {
    assert t in Those(phases, Sleeping);
  }

  lemma TakingKeepsOwed<T>(s: State<T>, t: Thread)
    requires WakeUpsOwed(s) && t in s.phases && s.queue != []
    requires s.phases[t] == Idle || s.phases[t] == Notified || s.phases[t] == Spurious
    ensures WakeUpsOwed(Taken(s, t))
  {
    hide Those, Count;
    CountAfter(s.phases, t, Idle, Notifying);
    CountAfter(s.phases, t, Idle, Notified);
    SleepersAfter(s.phases, t, Idle);
  }

  lemma WakingSpuriouslyKeepsOwed<T>(s: State<T>, t: Thread)
    requires WakeUpsOwed(s) && InPhase(s.phases, t, Sleeping)
    ensures WakeUpsOwed(s.(phases := s.phases[t := Spurious]))
  {
    hide Those, Count;
    CountAfter(s.phases, t, Spurious, Notifying);
    CountAfter(s.phases, t, Spurious, Notified);
    SleepersAfter(s.phases, t, Spurious);
  }

  lemma StepKeepsOwed<T>(s: State<T>, step: Step<T>, s': State<T>, c: Config)
    requires WakeUpsOwed(s) && IsStep(s, step, s', c)
    ensures WakeUpsOwed(s')
  {
    hide Those, Count, Taken, Enqueued;
    match step
    case Enqueue(t, v) => EnqueueKeepsOwed(s, t, v, c);
    case NotifyOne(t, woken) => NotifyKeepsOwed(s, t, woken, c);
    case Wait(t) => if s.queue != [] { TakingKeepsOwed(s, t); }
    case WakeSpuriously(t) => WakingSpuriouslyKeepsOwed(s, t);
    case Resume(t) => if s.queue != [] { TakingKeepsOwed(s, t); }
    case TakeOne(t) => if s.queue != [] { TakingKeepsOwed(s, t); }
    case TakeIf(t, pred) => if s.queue != [] { TakingKeepsOwed(s, t); }
    case ClearAll(t) =>
  }

  lemma InitiallyOwed<T>(s: State<T>)
    requires Initial(s)
    ensures WakeUpsOwed(s)
  {}

  /** In every state of every run, and so for every interleaving: no wake-up is lost. */
  lemma {:induction false} NoWakeUpIsLost<T>(states: seq<State<T>>, steps: seq<Step<T>>, c: Config, i: nat)
    requires IsRun(states, steps, c) && i < |states|
    ensures WakeUpsOwed(states[i])
  {
    hide WakeUpsOwed, IsStep, Initial;
    if i == 0 {
      InitiallyOwed(states[0]);
    } else {
      NoWakeUpIsLost(states, steps, c, i - 1);
      StepKeepsOwed(states[i - 1], steps[i - 1], states[i], c);
    }
  }

  /** Nobody is between a push and its notification, and no notified consumer still has to run. */
  ghost predicate Quiet<T>(s: State<T>) {
    forall t :: t in s.phases ==> s.phases[t] != Notifying && s.phases[t] != Notified
  }

  /** A consumer asleep in a quiet state of a run has nothing to consume. */
  lemma QuietSleeperMeansEmptyQueue<T>(states: seq<State<T>>, steps: seq<Step<T>>, c: Config, i: nat, t: Thread)
    requires IsRun(states, steps, c) && i < |states|
    requires Quiet(states[i]) && InPhase(states[i].phases, t, Sleeping)
    ensures states[i].queue == []
  {
    hide IsRun;
    NoWakeUpIsLost(states, steps, c, i);
    SleeperExists(states[i].phases, t);
    assert Those(states[i].phases, Notified) == {} && Those(states[i].phases, Notifying) == {};
  }

  // Pending wake-ups drain

  /** Two moves for a push still to notify, one for a notified consumer still to run. */
  function Owed(phases: map<Thread, Phase>): nat {
    2 * Count(phases, Notifying) + Count(phases, Notified)
  }

  /** A push notifies, or a notified consumer runs. */
  ghost predicate IsDrainStep<T>(s: State<T>, step: Step<T>) {
    step.NotifyOne? || (step.Resume? && InPhase(s.phases, step.t, Notified))
  }

  lemma DrainStepLessens<T>(s: State<T>, step: Step<T>, s': State<T>, c: Config)
    requires IsStep(s, step, s', c) && IsDrainStep(s, step)
    ensures Owed(s'.phases) < Owed(s.phases)
  {
    hide Count;
    match step {
      case NotifyOne(t, woken) =>
        CountAfter(s.phases, t, Idle, Notifying);
        CountAfter(s.phases, t, Idle, Notified);
        if woken.Some? {
          CountAfter(s.phases[t := Idle], woken.value, Notified, Notifying);
          CountAfter(s.phases[t := Idle], woken.value, Notified, Notified);
        }
      case Resume(t) =>
        var p := if s.queue == [] then Sleeping else Idle;
        CountAfter(s.phases, t, p, Notifying);
        CountAfter(s.phases, t, p, Notified);
    }
  }

  /** While a state is not quiet, some thread can take a drain step. */
  lemma DrainStepExists<T>(s: State<T>) returns (step: Step<T>)
    requires !Quiet(s)
    ensures Enabled(s, step) && IsDrainStep(s, step)
  {
    var t :| t in s.phases && (s.phases[t] == Notifying || s.phases[t] == Notified);
    if s.phases[t] == Notified {
      step := Resume(t);
    } else if Those(s.phases, Sleeping) == {} {
      step := NotifyOne(t, None);
    } else {
      var u :| u in Those(s.phases, Sleeping);
      step := NotifyOne(t, Some(u));
    }
  }

  ghost predicate IsDrain<T>(states: seq<State<T>>, steps: seq<Step<T>>, c: Config) {
    && |states| == |steps| + 1
    && forall i :: 0 <= i < |steps| ==>
         IsStep(states[i], steps[i], states[i + 1], c) && IsDrainStep(states[i], steps[i])
  }

  lemma {:induction false} DrainsAreShort<T>(states: seq<State<T>>, steps: seq<Step<T>>, c: Config)
    requires IsDrain(states, steps, c)
    ensures |steps| + Owed(states[|steps|].phases) <= Owed(states[0].phases)
    decreases |steps|
  {
    hide Owed, IsStep, IsDrainStep;
    if steps != [] {
      var n := |steps| - 1;
      assert IsDrain(states[..n + 1], steps[..n], c);
      DrainsAreShort(states[..n + 1], steps[..n], c);
      DrainStepLessens(states[n], steps[n], states[n + 1], c);
    }
  }

  /** From any state of a run, some drain of at most `Owed` steps leads to a quiet state. */
  lemma {:induction false} EveryStateDrains<T>(s: State<T>, c: Config)
    returns (states: seq<State<T>>, steps: seq<Step<T>>)
    ensures IsDrain(states, steps, c) && states[0] == s && Quiet(states[|steps|])
    decreases Owed(s.phases)
  {
    hide Owed, Next, Enabled;
    if Quiet(s) {
      states, steps := [s], [];
    } else {
      var step := DrainStepExists(s);
      var s' := Next(s, step, c);
      DrainStepLessens(s, step, s', c);
      var rest, more := EveryStateDrains(s', c);
      states, steps := [s] + rest, [step] + more;
    }
  }

  // The history

  function Items<T>(departed: seq<Departure<T>>): (items: seq<T>)
    ensures |items| == |departed|
    ensures forall i :: 0 <= i < |departed| ==> items[i] == departed[i].item
  {
    seq(|departed|, i requires 0 <= i < |departed| => departed[i].item)
  }

  /** The accepted items, in order, are the departed ones followed by those still queued; the bound
      holds; and only the policy in force loses items. */
  ghost predicate HistoryHolds<T>(s: State<T>, c: Config) {
    && s.accepted == Items(s.departed) + s.queue
    && (c.maxSize != 0 ==> |s.queue| <= c.maxSize)
    && (c.maxSize == 0 || c.policy == RejectNew ==> forall i :: 0 <= i < |s.departed| ==> !s.departed[i].Dropped?)
    && (c.maxSize == 0 || c.policy == DropOldest ==> s.rejections == 0)
  }

  lemma ItemsAppended<T>(d: seq<Departure<T>>, e: seq<Departure<T>>)
    ensures Items(d + e) == Items(d) + Items(e)
  {}

  lemma TakingKeepsHistory<T>(s: State<T>, t: Thread, c: Config)
    requires HistoryHolds(s, c) && s.queue != []
    ensures HistoryHolds(Taken(s, t), c)
  {
    var one := Dequeued(s.queue[0], t);
    ItemsAppended(s.departed, [one]);
    assert Items([one]) + s.queue[1..] == s.queue;
    Regrouped(Items(s.departed), Items([one]), s.queue[1..]);
  }

  lemma EnqueueKeepsHistory<T>(s: State<T>, t: Thread, v: T, c: Config)
    requires HistoryHolds(s, c)
    ensures HistoryHolds(Enqueued(s, t, v, c), c)
  {
    match OutcomeOf(|s.queue|, c)
    case Rejected =>
    case Appended => Regrouped(Items(s.departed), s.queue, [v]);
    case Displaced =>
      var one := Dropped(s.queue[0]);
      ItemsAppended(s.departed, [one]);
      assert Items([one]) + (s.queue[1..] + [v]) == s.queue + [v];
      Regrouped(Items(s.departed), Items([one]), s.queue[1..] + [v]);
      Regrouped(Items(s.departed), s.queue, [v]);
  }

  lemma ClearKeepsHistory<T>(s: State<T>, c: Config)
    requires HistoryHolds(s, c)
    ensures HistoryHolds(s.(queue := [], departed := s.departed + ClearedAll(s.queue)), c)
  {
    ItemsAppended(s.departed, ClearedAll(s.queue));
    assert Items(ClearedAll(s.queue)) == s.queue;
    assert s.accepted + [] == s.accepted;
  }

  lemma StepKeepsHistory<T>(s: State<T>, step: Step<T>, s': State<T>, c: Config)
    requires HistoryHolds(s, c) && IsStep(s, step, s', c)
    ensures HistoryHolds(s', c)
  {
    hide Enqueued, Taken;
    match step
    case Enqueue(t, v) => EnqueueKeepsHistory(s, t, v, c);
    case Wait(t) => if s.queue != [] { TakingKeepsHistory(s, t, c); }
    case Resume(t) => if s.queue != [] { TakingKeepsHistory(s, t, c); }
    case TakeOne(t) => if s.queue != [] { TakingKeepsHistory(s, t, c); }
    case TakeIf(t, pred) => if s.queue != [] { TakingKeepsHistory(s, t, c); }
    case ClearAll(t) => ClearKeepsHistory(s, c);
    case _ =>
  }

  /** In every run the items leave in the order in which they were accepted, none is duplicated and
      none is lost except as its departure says. */
  lemma {:induction false} EveryRunConservesItems<T>(states: seq<State<T>>, steps: seq<Step<T>>, c: Config, i: nat)
    requires IsRun(states, steps, c) && i < |states|
    ensures HistoryHolds(states[i], c)
  {
    hide HistoryHolds, IsStep, Initial;
    if i == 0 {
      InitialHistory(states[0], c);
    } else {
      EveryRunConservesItems(states, steps, c, i - 1);
      StepKeepsHistory(states[i - 1], steps[i - 1], states[i], c);
    }
  }

  lemma InitialHistory<T>(s: State<T>, c: Config)
    requires Initial(s)
    ensures HistoryHolds(s, c)
  {}

  /** Histories only grow: what has been accepted or has departed stays so. */
  lemma StepExtendsHistory<T>(s: State<T>, step: Step<T>, s': State<T>, c: Config)
    requires IsStep(s, step, s', c)
    ensures s.accepted <= s'.accepted && s.departed <= s'.departed && s.rejections <= s'.rejections
    ensures s'.phases.Keys == s.phases.Keys
  {}

  /** `s'` has the history of `s` and maybe more, with the same threads. */
  predicate Extends<T(==)>(s: State<T>, s': State<T>) {
    && s.accepted <= s'.accepted && s.departed <= s'.departed && s.rejections <= s'.rejections
    && s'.phases.Keys == s.phases.Keys
  }

  /** In every run each later state extends each earlier one. */
  lemma {:induction false} RunsExtendHistory<T>(states: seq<State<T>>, steps: seq<Step<T>>, c: Config, i: nat, j: nat)
    requires IsRun(states, steps, c) && i <= j < |states|
    ensures Extends(states[i], states[j])
    decreases j
  {
    hide IsStep, Initial;
    if i < j {
      RunsExtendHistory(states, steps, c, i, j - 1);
      StepExtendsHistory(states[j - 1], steps[j - 1], states[j], c);
    }
  }

  // What the steps do, in terms of the queue and the history

  /** Nothing but the phase of thread `t` changes. */
  predicate OnlyPhase<T(==)>(s: State<T>, s': State<T>, t: Thread, p: Phase) {
    s' == s.(phases := s.phases[t := p])
  }

  /** Thread `t` takes the head, and is then between operations. */
  predicate TakesHead<T(==)>(s: State<T>, s': State<T>, t: Thread) {
    && s.queue != [] && s.queue == [s.queue[0]] + s'.queue
    && s'.departed == s.departed + [Dequeued(s.queue[0], t)]
    && s'.accepted == s.accepted && s'.rejections == s.rejections && s'.phases == s.phases[t := Idle]
  }

  /** In every run an item is refused only by a full queue that rejects, and displaces the head alone only in a full
      queue that drops; whenever there is room it is put last and nothing leaves. */
  lemma EveryEnqueueIsExact<T>(states: seq<State<T>>, steps: seq<Step<T>>, c: Config, i: nat)
    requires IsRun(states, steps, c) && i < |steps| && steps[i].Enqueue?
    ensures var s, s', t, v := states[i], states[i + 1], steps[i].t, steps[i].v;
            var full := 0 < c.maxSize <= |s.queue|;
            && (!full ==> s'.queue == s.queue + [v] && s'.departed == s.departed)
            && (full && c.policy == DropOldest ==>
                  s'.queue == s.queue[1..] + [v] && s'.departed == s.departed + [Dropped(s.queue[0])])
            && (full && c.policy == RejectNew ==> s' == s.(rejections := s.rejections + 1))
            && (full && c.policy == RejectNew <==> s'.rejections != s.rejections)
            && (full && c.policy == DropOldest <==> s'.departed != s.departed)
            && (s'.rejections == s.rejections ==>
                  s'.accepted == s.accepted + [v] && s'.phases == s.phases[t := Notifying])
  {
    hide Enqueued, Initial;
    assert IsStep(states[i], steps[i], states[i + 1], c);
    EnqueueIsExact(states[i], steps[i].t, steps[i].v, c);
  }

  lemma EnqueueIsExact<T>(s: State<T>, t: Thread, v: T, c: Config)
    ensures var s' := Enqueued(s, t, v, c);
            var full := 0 < c.maxSize <= |s.queue|;
            && (!full ==> s'.queue == s.queue + [v] && s'.departed == s.departed)
            && (full && c.policy == DropOldest ==>
                  s'.queue == s.queue[1..] + [v] && s'.departed == s.departed + [Dropped(s.queue[0])])
            && (full && c.policy == RejectNew ==> s' == s.(rejections := s.rejections + 1))
            && (full && c.policy == RejectNew <==> s'.rejections != s.rejections)
            && (full && c.policy == DropOldest <==> s'.departed != s.departed)
            && (s'.rejections == s.rejections ==>
                  s'.accepted == s.accepted + [v] && s'.phases == s.phases[t := Notifying])
  {
    if 0 < c.maxSize <= |s.queue| {
      var d := s.departed + [Dropped(s.queue[0])];
      assert |d| != |s.departed|;
    }
  }

  /** A notification wakes its sleeper, or nobody when nobody sleeps, and changes no other phase. */
  ghost predicate Notifies<T>(s: State<T>, s': State<T>, t: Thread, woken: Option<Thread>) {
    && InPhase(s.phases, t, Notifying) && InPhase(s'.phases, t, Idle) && s' == s.(phases := s'.phases)
    && (if woken.Some? then InPhase(s.phases, woken.value, Sleeping) && InPhase(s'.phases, woken.value, Notified)
        else forall u :: !InPhase(s.phases, u, Sleeping))
    && (forall u, p :: u != t && Some(u) != woken ==> (InPhase(s'.phases, u, p) <==> InPhase(s.phases, u, p)))
  }

  /** The whole queue departs, in order. */
  ghost predicate Clears<T>(s: State<T>, s': State<T>) {
    && s' == s.(queue := [], departed := s'.departed)
    && |s'.departed| == |s.departed| + |s.queue| && s.departed <= s'.departed
    && forall j :: 0 <= j < |s.queue| ==> s'.departed[|s.departed| + j] == Cleared(s.queue[j])
  }

  ghost predicate IsExact<T>(s: State<T>, step: Step<T>, s': State<T>) {
    match step
    case Enqueue(t, v) => InPhase(s.phases, t, Idle)
    case NotifyOne(t, woken) => Notifies(s, s', t, woken)
    case Wait(t) =>
      InPhase(s.phases, t, Idle) && if s.queue == [] then OnlyPhase(s, s', t, Sleeping) else TakesHead(s, s', t)
    case WakeSpuriously(t) => InPhase(s.phases, t, Sleeping) && OnlyPhase(s, s', t, Spurious)
    case Resume(t) =>
      && (InPhase(s.phases, t, Notified) || InPhase(s.phases, t, Spurious))
      && if s.queue == [] then OnlyPhase(s, s', t, Sleeping) else TakesHead(s, s', t)
    case TakeOne(t) => InPhase(s.phases, t, Idle) && if s.queue == [] then s' == s else TakesHead(s, s', t)
    case TakeIf(t, pred) =>
      && InPhase(s.phases, t, Idle)
      && if s.queue != [] && pred(s.queue[0], |s.queue|) then TakesHead(s, s', t) else s' == s
    case ClearAll(t) => InPhase(s.phases, t, Idle) && Clears(s, s')
  }

  lemma NotifyIsExact<T>(s: State<T>, t: Thread, woken: Option<Thread>, c: Config)
    requires Enabled(s, NotifyOne(t, woken))
    ensures Notifies(s, Next(s, NotifyOne(t, woken), c), t, woken)
  {
    if woken.None? {
      forall u ensures !InPhase(s.phases, u, Sleeping) { assert u !in Those(s.phases, Sleeping); }
    }
  }

  lemma ClearIsExact<T>(s: State<T>, t: Thread, c: Config)
    ensures Clears(s, Next(s, ClearAll(t), c))
  {
    assert s.departed <= s.departed + ClearedAll(s.queue);
  }

  lemma TakenIsExact<T>(s: State<T>, t: Thread)
    requires s.queue != []
    ensures TakesHead(s, Taken(s, t), t)
  {}

  /** The other steps of a run: consumers take the head alone, sleep on an empty queue or leave it alone, and only a
      notification or a spurious wake-up ends a sleep. */
  lemma EveryOtherStepIsExact<T>(states: seq<State<T>>, steps: seq<Step<T>>, c: Config, i: nat)
    requires IsRun(states, steps, c) && i < |steps|
    ensures IsExact(states[i], steps[i], states[i + 1])
  {
    hide Enqueued, Initial, Taken, TakesHead, Notifies, Clears, Those;
    var s := states[i];
    assert IsStep(s, steps[i], states[i + 1], c);
    if s.queue != [] && !steps[i].ClearAll? { TakenIsExact(s, steps[i].t); }
    match steps[i]
    case NotifyOne(t, woken) => NotifyIsExact(s, t, woken, c);
    case ClearAll(t) => ClearIsExact(s, t, c);
    case _ =>
  }
}
