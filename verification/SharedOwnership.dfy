/** The protocol of one control block: any number of threads hold, copy, move, lock and release
    shared and weak handles on it, and every atomic operation is a step of its own. */
module SharedOwnership {
  import opened Basics

  /** Counters are 32 bits wide; fewer handles than that are assumed to exist at any time. */
  const COUNTER_LIMIT: nat := 0x1_0000_0000

  type Handle = nat
  type Thread = nat

  /** Where a thread is in an operation on the block, before the step of that name. */
  datatype Pc =
    | Idle
    | IncStrong(source: Handle)              // copying the shared handle `source`
    | DecStrong                              // releasing a shared handle
    | DestroyObject                          // the strong count has just reached zero
    | DecCollective                          // giving up the weak reference of all owners
    | IncWeakFromShared(source: Handle)      // making a weak handle from a shared one
    | IncWeak(source: Handle)                // copying the weak handle `source`
    | DecWeak                                // releasing a weak handle
    | DestroyBlock                           // the weak count has just reached zero
    | Load(source: Handle)                   // locking the weak handle `source`
    | Try(source: Handle, value: nat)        // locking it, with the count last seen

  /** The block and everything that can reach it. `shared` and `weak` are the handles that point to
      the block; how often the object and the block have been destroyed is counted. */
  datatype State = State(
    strong: nat, weakCount: nat, destroyed: nat, freed: nat,
    shared: set<Handle>, weak: set<Handle>, threads: map<Thread, Pc>)

  ghost predicate Init(s: State) {
    && s.strong == 1 && s.weakCount == 1 && s.destroyed == 0 && s.freed == 0
    && |s.shared| == 1 && s.weak == {}
    && forall t :: t in s.threads ==> s.threads[t] == Idle
  }

  function Inc(counter: nat): nat {
    (counter + 1) % COUNTER_LIMIT
  }

  function Dec(counter: nat): nat {
    (counter + COUNTER_LIMIT - 1) % COUNTER_LIMIT
  }

  // ---------------------------------------------------------------- steps

  /** A handle that another thread is copying or locking must stay alive and where it is. */
  ghost predicate Pinned(s: State, h: Handle) {
    exists t :: t in s.threads && PinnedBy(s.threads[t], h)
  }

  predicate PinnedBy(pc: Pc, h: Handle) {
    match pc
    case IncStrong(source) => source == h
    case IncWeakFromShared(source) => source == h
    case IncWeak(source) => source == h
    case Load(source) => source == h
    case Try(source, _) => source == h
    case _ => false
  }

  function Goto(s: State, t: Thread, pc: Pc): State {
    s.(threads := s.threads[t := pc])
  }

  /** What can happen next. Releasing takes the handle away at once; what is left of it is the
      thread's duty to decrement. Copy assignment is a release followed by a copy. Moving and
      swapping touch no counter: one handle takes the place of another. */
  datatype Event =
    | BeginCopy(t: Thread, h: Handle)
    | BeginWeakFrom(t: Thread, h: Handle)
    | BeginWeakCopy(t: Thread, h: Handle)
    | BeginLock(t: Thread, h: Handle)
    | BeginRelease(t: Thread, h: Handle)
    | BeginWeakRelease(t: Thread, h: Handle)
    | Move(h: Handle, k: Handle)
    | MoveWeak(h: Handle, k: Handle)
    | Advance(t: Thread, made: Handle, spurious: bool)

  predicate IsIdle(s: State, t: Thread) {
    t in s.threads && s.threads[t] == Idle
  }

  ghost predicate Happens(s: State, s': State, event: Event) {
    match event
    case BeginCopy(t, h) => IsIdle(s, t) && h in s.shared && s' == Goto(s, t, IncStrong(h))
    case BeginWeakFrom(t, h) => IsIdle(s, t) && h in s.shared && s' == Goto(s, t, IncWeakFromShared(h))
    case BeginWeakCopy(t, h) => IsIdle(s, t) && h in s.weak && s' == Goto(s, t, IncWeak(h))
    case BeginLock(t, h) => IsIdle(s, t) && h in s.weak && s' == Goto(s, t, Load(h))
    case BeginRelease(t, h) =>
      IsIdle(s, t) && h in s.shared && !Pinned(s, h) && s' == Goto(s.(shared := s.shared - {h}), t, DecStrong)
    case BeginWeakRelease(t, h) =>
      IsIdle(s, t) && h in s.weak && !Pinned(s, h) && s' == Goto(s.(weak := s.weak - {h}), t, DecWeak)
    case Move(h, k) =>
      h in s.shared && k !in s.shared && k !in s.weak && !Pinned(s, h) && s' == s.(shared := s.shared - {h} + {k})
    case MoveWeak(h, k) =>
      h in s.weak && k !in s.weak && k !in s.shared && !Pinned(s, h) && s' == s.(weak := s.weak - {h} + {k})
    case Advance(t, made, spurious) => Advances(s, s', t, made, spurious)
  }

  /** The next atomic step of a thread in the middle of an operation; `made` is where a new handle
      is made, and `spurious` lets the weak compare-and-swap fail for no reason. */
  ghost predicate Advances(s: State, s': State, t: Thread, made: Handle, spurious: bool) {
    && t in s.threads
    && made !in s.shared && made !in s.weak
    && match s.threads[t]
       case Idle => false
       case IncStrong(_) =>
         RoomForShared(s) && s' == Goto(s.(strong := Inc(s.strong), shared := s.shared + {made}), t, Idle)
       case DecStrong =>
         s' == Goto(s.(strong := Dec(s.strong)), t, if Dec(s.strong) == 0 then DestroyObject else Idle)
       case DestroyObject => s' == Goto(s.(destroyed := s.destroyed + 1), t, DecCollective)
       case DecCollective =>
         s' == Goto(s.(weakCount := Dec(s.weakCount)), t, if Dec(s.weakCount) == 0 then DestroyBlock else Idle)
       case IncWeakFromShared(_) =>
         RoomForWeak(s) && s' == Goto(s.(weakCount := Inc(s.weakCount), weak := s.weak + {made}), t, Idle)
       case IncWeak(_) =>
         RoomForWeak(s) && s' == Goto(s.(weakCount := Inc(s.weakCount), weak := s.weak + {made}), t, Idle)
       case DecWeak =>
         s' == Goto(s.(weakCount := Dec(s.weakCount)), t, if Dec(s.weakCount) == 0 then DestroyBlock else Idle)
       case DestroyBlock => s' == Goto(s.(freed := s.freed + 1), t, Idle)
       case Load(source) => s' == Goto(s, t, Try(source, s.strong))
       case Try(source, value) =>
         if value == 0 then s' == Goto(s, t, Idle)
         else if s.strong == value && !spurious then
           RoomForShared(s) && s' == Goto(s.(strong := Inc(value), shared := s.shared + {made}), t, Idle)
         else s' == Goto(s, t, Try(source, s.strong))
  }

  ghost predicate RoomForShared(s: State) {
    |s.shared| + |At(s.threads, DecStrong)| + 1 < COUNTER_LIMIT
  }

  ghost predicate RoomForWeak(s: State) {
    |s.weak| + |At(s.threads, DecWeak)| + 2 < COUNTER_LIMIT
  }

  ghost predicate Step(s: State, s': State) {
    exists event :: Happens(s, s', event)
  }

  // ---------------------------------------------------------------- the invariant

  /** The threads that stand before a step without argument. */
  ghost function At(threads: map<Thread, Pc>, pc: Pc): set<Thread> {
    set t | t in threads && threads[t] == pc
  }

  /** A state with its handles and threads counted. */
  datatype Tally = Tally(
    strong: nat, weakCount: nat, destroyed: nat, freed: nat, shared: nat, weak: nat,
    decStrong: nat, destroyObject: nat, decCollective: nat, decWeak: nat, destroyBlock: nat)

  ghost function TallyOf(s: State): Tally {
    Tally(s.strong, s.weakCount, s.destroyed, s.freed, |s.shared|, |s.weak|,
          |At(s.threads, DecStrong)|, |At(s.threads, DestroyObject)|, |At(s.threads, DecCollective)|,
          |At(s.threads, DecWeak)|, |At(s.threads, DestroyBlock)|)
  }

  /** The weak reference that all owners hold together has not been given up. */
  predicate CollectiveHeld(c: Tally) {
    c.strong > 0 || c.destroyObject + c.decCollective > 0
  }

  predicate Balanced(c: Tally) {
    // The counters count the handles, and the decrements still owed for released ones.
    && c.strong == c.shared + c.decStrong < COUNTER_LIMIT
    && c.weakCount == c.weak + c.decWeak + (if CollectiveHeld(c) then 1 else 0)
    && c.weak + c.decWeak + 1 < COUNTER_LIMIT
    // The object is destroyed once, by the one thread that took the strong count to zero.
    && c.destroyObject + c.decCollective <= (if c.strong == 0 then 1 else 0)
    && c.destroyed == (if c.strong > 0 || c.destroyObject == 1 then 0 else 1)
    // The block is freed once, by the one thread that took the weak count to zero.
    && c.destroyBlock + c.freed == (if c.weakCount == 0 then 1 else 0)
  }

  /** Handles being copied or locked are alive, and a zero seen is a zero for good. */
  ghost predicate PcOk(s: State, pc: Pc) {
    match pc
    case IncStrong(source) => source in s.shared
    case IncWeakFromShared(source) => source in s.shared
    case IncWeak(source) => source in s.weak
    case Load(source) => source in s.weak
    case Try(source, value) => source in s.weak && (value == 0 ==> s.strong == 0)
    case _ => true
  }

  ghost predicate HandlesOk(s: State) {
    && s.shared !! s.weak
    && forall t {:trigger s.threads[t]} :: t in s.threads ==> PcOk(s, s.threads[t])
  }

  ghost predicate Inv(s: State) {
    Balanced(TallyOf(s)) && HandlesOk(s)
  }

  lemma InitInv(s: State)
    requires Init(s)
    ensures Inv(s)
  {
    assert At(s.threads, DecStrong) == {} && At(s.threads, DecWeak) == {};
    assert At(s.threads, DestroyObject) == {} && At(s.threads, DecCollective) == {};
    assert At(s.threads, DestroyBlock) == {};
  }

  lemma OneMore<T>(a: set<T>, x: T)
    ensures |a + {x}| == |a| + Bit(x !in a)
    ensures |a - {x}| == |a| - Bit(x in a)
  {
    if x in a {
      assert a + {x} == a;
    } else {
      assert a - {x} == a;
    }
  }

  /** How many threads stand before a step, when one thread moves on. */
  lemma AtGoto(threads: map<Thread, Pc>, t: Thread, pc: Pc, q: Pc)
    requires t in threads
    ensures |At(threads[t := pc], q)| == |At(threads, q)| + Bit(pc == q) - Bit(threads[t] == q)
  {
    var a := At(threads, q);
    assert t in a <==> threads[t] == q;
    OneMore(a, t);
    AtAfter(threads, t, pc, q);
  }

  lemma AtAfter(threads: map<Thread, Pc>, t: Thread, pc: Pc, q: Pc)
    ensures At(threads[t := pc], q) == if pc == q then At(threads, q) + {t} else At(threads, q) - {t}
  {}

  /** Handles of other threads are not disturbed. */
  lemma HandlesGoto(s: State, s': State, t: Thread, pc: Pc)
    requires HandlesOk(s) && t in s.threads && s'.threads == s.threads[t := pc] && s'.shared !! s'.weak && PcOk(s', pc)
    requires forall h :: h in s.shared && h !in s'.shared ==> !Pinned(s, h)
    requires forall h :: h in s.weak && h !in s'.weak ==> !Pinned(s, h)
    requires s.strong == 0 ==> s'.strong == 0
    ensures HandlesOk(s')
  {
    forall u | u in s'.threads ensures PcOk(s', s'.threads[u]) {
      if u != t {
        var q := s.threads[u];
        assert PcOk(s, q);
        assert forall h :: PinnedBy(q, h) ==> Pinned(s, h);
        match q
        case IncStrong(h) => assert PinnedBy(q, h);
        case IncWeakFromShared(h) => assert PinnedBy(q, h);
        case IncWeak(h) => assert PinnedBy(q, h);
        case Load(h) => assert PinnedBy(q, h);
        case Try(h, _) => assert PinnedBy(q, h);
        case _ =>
      }
    }
  }

  // The steps, as far as they can be seen in the tally.

  predicate TookShared(c: Tally, d: Tally) {
    c.shared > 0 && d == c.(shared := c.shared - 1, decStrong := c.decStrong + 1)
  }

  predicate TookWeak(c: Tally, d: Tally) {
    c.weak > 0 && d == c.(weak := c.weak - 1, decWeak := c.decWeak + 1)
  }

  predicate MadeShared(c: Tally, d: Tally) {
    && c.shared + c.strong > 0 && c.shared + c.decStrong + 1 < COUNTER_LIMIT
    && d == c.(strong := Inc(c.strong), shared := c.shared + 1)
  }

  predicate MadeWeak(c: Tally, d: Tally) {
    && c.shared + c.weak > 0 && c.weak + c.decWeak + 2 < COUNTER_LIMIT
    && d == c.(weakCount := Inc(c.weakCount), weak := c.weak + 1)
  }

  predicate DidDecStrong(c: Tally, d: Tally) {
    c.decStrong > 0 && d == c.(strong := Dec(c.strong), decStrong := c.decStrong - 1,
                               destroyObject := c.destroyObject + Bit(Dec(c.strong) == 0))
  }

  predicate DidDestroyObject(c: Tally, d: Tally) {
    c.destroyObject > 0 && d == c.(destroyed := c.destroyed + 1, destroyObject := c.destroyObject - 1,
                                   decCollective := c.decCollective + 1)
  }

  predicate DidDecCollective(c: Tally, d: Tally) {
    c.decCollective > 0 && d == c.(weakCount := Dec(c.weakCount), decCollective := c.decCollective - 1,
                                   destroyBlock := c.destroyBlock + Bit(Dec(c.weakCount) == 0))
  }

  predicate DidDecWeak(c: Tally, d: Tally) {
    c.decWeak > 0 && d == c.(weakCount := Dec(c.weakCount), decWeak := c.decWeak - 1,
                             destroyBlock := c.destroyBlock + Bit(Dec(c.weakCount) == 0))
  }

  predicate DidDestroyBlock(c: Tally, d: Tally) {
    c.destroyBlock > 0 && d == c.(freed := c.freed + 1, destroyBlock := c.destroyBlock - 1)
  }

  predicate TallyStep(c: Tally, d: Tally) {
    || d == c || TookShared(c, d) || TookWeak(c, d) || MadeShared(c, d) || MadeWeak(c, d)
    || DidDecStrong(c, d) || DidDestroyObject(c, d) || DidDecCollective(c, d)
    || DidDecWeak(c, d) || DidDestroyBlock(c, d)
  }

  lemma TallyStepKeeps(c: Tally, d: Tally)
    requires Balanced(c) && TallyStep(c, d)
    ensures Balanced(d) && (c.strong == 0 ==> d.strong == 0)
  {
    DecrementIsExact(c.strong);
    DecrementIsExact(c.weakCount);
  }

  lemma DecrementIsExact(counter: nat)
    requires counter < COUNTER_LIMIT
    ensures counter > 0 ==> Dec(counter) == counter - 1
    ensures counter + 1 < COUNTER_LIMIT ==> Inc(counter) == counter + 1
  {}

  /** The tally after a thread has moved on and the sets of handles have changed. */
  lemma TallyAfter(s: State, s': State, t: Thread)
    requires t in s.threads && t in s'.threads && s'.threads == s.threads[t := s'.threads[t]]
    ensures var c, d, pc, q := TallyOf(s), TallyOf(s'), s'.threads[t], s.threads[t];
            && d.decStrong == c.decStrong + Bit(pc == DecStrong) - Bit(q == DecStrong)
            && d.destroyObject == c.destroyObject + Bit(pc == DestroyObject) - Bit(q == DestroyObject)
            && d.decCollective == c.decCollective + Bit(pc == DecCollective) - Bit(q == DecCollective)
            && d.decWeak == c.decWeak + Bit(pc == DecWeak) - Bit(q == DecWeak)
            && d.destroyBlock == c.destroyBlock + Bit(pc == DestroyBlock) - Bit(q == DestroyBlock)
  {
    var pc := s'.threads[t];
    AtGoto(s.threads, t, pc, DecStrong);
    AtGoto(s.threads, t, pc, DestroyObject);
    AtGoto(s.threads, t, pc, DecCollective);
    AtGoto(s.threads, t, pc, DecWeak);
    AtGoto(s.threads, t, pc, DestroyBlock);
  }

  lemma ReleaseTallies(s: State, s': State, t: Thread, made: Handle, spurious: bool)
    requires Advances(s, s', t, made, spurious)
    ensures var c, d := TallyOf(s), TallyOf(s');
            match s.threads[t]
            case DecStrong => DidDecStrong(c, d)
            case DestroyObject => DidDestroyObject(c, d)
            case DecCollective => DidDecCollective(c, d)
            case DecWeak => DidDecWeak(c, d)
            case DestroyBlock => DidDestroyBlock(c, d)
            case _ => true
  {
    hide At, Inc, Dec, RoomForShared, RoomForWeak;
    TallyAfter(s, s', t);
  }

  lemma CopyTallies(s: State, s': State, t: Thread, made: Handle, spurious: bool)
    requires Advances(s, s', t, made, spurious) && PcOk(s, s.threads[t])
    ensures var c, d := TallyOf(s), TallyOf(s');
            match s.threads[t]
            case IncStrong(_) => MadeShared(c, d)
            case IncWeakFromShared(_) => MadeWeak(c, d)
            case IncWeak(_) => MadeWeak(c, d)
            case _ => true
  {
    hide At, Inc, Dec;
    TallyAfter(s, s', t);
    OneMore(s.shared, made);
    OneMore(s.weak, made);
    match s.threads[t]
    case IncStrong(h) => NotEmpty(s.shared, h);
    case IncWeakFromShared(h) => NotEmpty(s.shared, h);
    case IncWeak(h) => NotEmpty(s.weak, h);
    case _ =>
  }

  lemma LockTallies(s: State, s': State, t: Thread, made: Handle, spurious: bool)
    requires Advances(s, s', t, made, spurious) && (s.threads[t].Load? || s.threads[t].Try?)
    ensures var c, d := TallyOf(s), TallyOf(s'); d == c || MadeShared(c, d)
  {
    hide At, Inc, Dec;
    TallyAfter(s, s', t);
    OneMore(s.shared, made);
  }

  lemma NotEmpty<T>(a: set<T>, x: T)
    requires x in a
    ensures |a| > 0
  {}

  lemma BeginTallies(s: State, s': State, event: Event)
    requires Happens(s, s', event) && !event.Advance?
    ensures var c, d := TallyOf(s), TallyOf(s');
            if event.BeginRelease? then TookShared(c, d) else if event.BeginWeakRelease? then TookWeak(c, d) else d == c
  {
    hide At, Pinned, TallyOf;
    match event
    case BeginRelease(t, h) => ReleaseBegins(s, s', t, h);
    case BeginWeakRelease(t, h) => WeakReleaseBegins(s, s', t, h);
    case Move(h, k) => MoveTallies(s, s', h, k);
    case MoveWeak(h, k) => MoveTallies(s, s', h, k);
    case BeginCopy(t, h) => OtherBegins(s, s', t, IncStrong(h));
    case BeginWeakFrom(t, h) => OtherBegins(s, s', t, IncWeakFromShared(h));
    case BeginWeakCopy(t, h) => OtherBegins(s, s', t, IncWeak(h));
    case BeginLock(t, h) => OtherBegins(s, s', t, Load(h));
  }

  lemma ReleaseBegins(s: State, s': State, t: Thread, h: Handle)
    requires IsIdle(s, t) && h in s.shared && s' == Goto(s.(shared := s.shared - {h}), t, DecStrong)
    ensures TookShared(TallyOf(s), TallyOf(s'))
  {
    hide At;
    TallyAfter(s, s', t);
    OneMore(s.shared, h);
  }

  lemma WeakReleaseBegins(s: State, s': State, t: Thread, h: Handle)
    requires IsIdle(s, t) && h in s.weak && s' == Goto(s.(weak := s.weak - {h}), t, DecWeak)
    ensures TookWeak(TallyOf(s), TallyOf(s'))
  {
    hide At;
    TallyAfter(s, s', t);
    OneMore(s.weak, h);
  }

  lemma OtherBegins(s: State, s': State, t: Thread, pc: Pc)
    requires IsIdle(s, t) && s' == Goto(s, t, pc) && (pc.IncStrong? || pc.IncWeakFromShared? || pc.IncWeak? || pc.Load?)
    ensures TallyOf(s') == TallyOf(s)
  {
    hide At;
    TallyAfter(s, s', t);
  }

  lemma MoveTallies(s: State, s': State, h: Handle, k: Handle)
    requires (h in s.shared && k !in s.shared && s' == s.(shared := s.shared - {h} + {k})) ||
             (h in s.weak && k !in s.weak && s' == s.(weak := s.weak - {h} + {k}))
    ensures TallyOf(s') == TallyOf(s)
  {
    hide At;
    OneMore(s.shared, h);
    OneMore(s.shared - {h}, k);
    OneMore(s.weak, h);
    OneMore(s.weak - {h}, k);
  }

  lemma EventTallies(s: State, s': State, event: Event)
    requires Happens(s, s', event) && HandlesOk(s)
    ensures TallyStep(TallyOf(s), TallyOf(s'))
  {
    hide TallyOf;
    if event.Advance? {
      var Advance(t, made, spurious) := event;
      assert PcOk(s, s.threads[t]);
      ReleaseTallies(s, s', t, made, spurious);
      CopyTallies(s, s', t, made, spurious);
      if s.threads[t].Load? || s.threads[t].Try? {
        LockTallies(s, s', t, made, spurious);
      }
    } else {
      BeginTallies(s, s', event);
    }
  }

  lemma EventHandles(s: State, s': State, event: Event)
    requires Happens(s, s', event) && HandlesOk(s) && (s.strong == 0 ==> s'.strong == 0)
    ensures HandlesOk(s')
  {
    if event.Move? || event.MoveWeak? {
      if t :| t in s.threads {
        HandlesGoto(s, s', t, s.threads[t]);
      }
    } else {
      HandlesGoto(s, s', event.t, s'.threads[event.t]);
    }
  }

  /** Every step keeps the invariant, and a strong count of zero is zero for good. */
  lemma StepKeepsInv(s: State, s': State)
    requires Inv(s) && Step(s, s')
    ensures Inv(s') && (s.strong == 0 ==> s'.strong == 0)
  {
    hide TallyStep, Balanced, At, Happens, HandlesOk;
    var event :| Happens(s, s', event);
    EventTallies(s, s', event);
    TallyStepKeeps(TallyOf(s), TallyOf(s'));
    EventHandles(s, s', event);
  }

  // ---------------------------------------------------------------- whole runs

  /** Any interleaving: each state follows from the one before by one event. */
  ghost predicate IsRun(run: seq<State>) {
    |run| > 0 && Init(run[0]) && forall i :: 0 <= i < |run| - 1 ==> StepAt(run, i)
  }

  ghost predicate StepAt(run: seq<State>, i: nat)
    requires i + 1 < |run|
  {
    Step(run[i], run[i + 1])
  }

  lemma {:induction false} RunKeepsInv(run: seq<State>, i: nat)
    requires IsRun(run) && i < |run|
    ensures Inv(run[i])
    decreases i
  {
    if i == 0 {
      InitInv(run[0]);
    } else {
      RunKeepsInv(run, i - 1);
      assert StepAt(run, i - 1);
      StepKeepsInv(run[i - 1], run[i]);
    }
  }

  ghost function CountAt(s: State, pc: Pc): nat {
    |At(s.threads, pc)|
  }

  /** In every state of every run: the strong count is the number of shared handles, with those
      being released counted until they are decremented; the weak count is the number of weak
      handles plus one until the last owner gives that one up. */
  lemma Counters(run: seq<State>, i: nat)
    requires IsRun(run) && i < |run|
    ensures var s := run[i];
            && s.strong == |s.shared| + CountAt(s, DecStrong)
            && s.weakCount == |s.weak| + CountAt(s, DecWeak) +
               (if s.strong > 0 || CountAt(s, DestroyObject) > 0 || CountAt(s, DecCollective) > 0 then 1 else 0)
  {
    RunKeepsInv(run, i);
  }

  /** The object and the block are destroyed at most once, the block only after the object; while
      there is a shared handle both live, and while there is a weak one the block does. */
  lemma Lifetimes(run: seq<State>, i: nat)
    requires IsRun(run) && i < |run|
    ensures var s := run[i];
            && s.destroyed <= 1 && s.freed <= s.destroyed
            && (s.shared != {} ==> s.destroyed == 0 && s.freed == 0)
            && (s.weak != {} ==> s.freed == 0)
  {
    hide Init;
    RunKeepsInv(run, i);
  }

  /** No thread is ever about to touch a block that has been freed, to use an object that has been
      destroyed, or to destroy either a second time. */
  lemma NothingAfterFree(run: seq<State>, i: nat, t: Thread)
    requires IsRun(run) && i < |run| && t in run[i].threads && run[i].threads[t] != Idle
    ensures run[i].freed == 0
    ensures run[i].threads[t] == DestroyObject || run[i].threads[t].IncStrong? ==> run[i].destroyed == 0
    ensures run[i].threads[t] == DestroyBlock ==> run[i].destroyed == 1
  {
    hide Inv, IsRun;
    RunKeepsInv(run, i);
    BusyIsCounted(run[i], t);
    BusyIsSafe(TallyOf(run[i]), run[i].threads[t]);
  }

  /** A busy thread leaves a trace in the tally. */
  predicate Traced(c: Tally, pc: Pc) {
    match pc
    case Idle => true
    case IncStrong(_) => c.shared > 0
    case IncWeakFromShared(_) => c.shared > 0
    case IncWeak(_) => c.weak > 0
    case Load(_) => c.weak > 0
    case Try(_, _) => c.weak > 0
    case DecStrong => c.decStrong > 0
    case DestroyObject => c.destroyObject > 0
    case DecCollective => c.decCollective > 0
    case DecWeak => c.decWeak > 0
    case DestroyBlock => c.destroyBlock > 0
  }

  lemma BusyIsCounted(s: State, t: Thread)
    requires Inv(s) && t in s.threads
    ensures Balanced(TallyOf(s)) && Traced(TallyOf(s), s.threads[t])
  {
    hide Balanced;
    var pc := s.threads[t];
    assert PcOk(s, pc);
    assert t in At(s.threads, pc);
    match pc
    case IncStrong(h) => NotEmpty(s.shared, h);
    case IncWeakFromShared(h) => NotEmpty(s.shared, h);
    case IncWeak(h) => NotEmpty(s.weak, h);
    case Load(h) => NotEmpty(s.weak, h);
    case Try(h, _) => NotEmpty(s.weak, h);
    case _ => NotEmpty(At(s.threads, pc), t);
  }

  lemma BusyIsSafe(c: Tally, pc: Pc)
    requires Balanced(c) && Traced(c, pc) && pc != Idle
    ensures c.freed == 0
    ensures pc == DestroyObject || pc.IncStrong? ==> c.destroyed == 0
    ensures pc == DestroyBlock ==> c.destroyed == 1
  {}

  /** Once every handle has been released and every thread has finished, the object has been
      destroyed and the block has been freed. */
  lemma NothingLeaks(run: seq<State>, i: nat)
    requires IsRun(run) && i < |run| && run[i].shared == {} && run[i].weak == {}
    requires forall t :: t in run[i].threads ==> run[i].threads[t] == Idle
    ensures run[i].destroyed == 1 && run[i].freed == 1
  {
    RunKeepsInv(run, i);
    var s := run[i];
    assert forall pc :: pc != Idle ==> At(s.threads, pc) == {};
    assert At(s.threads, DecStrong) == {} && At(s.threads, DecWeak) == {} && At(s.threads, DestroyBlock) == {};
    assert At(s.threads, DestroyObject) == {} && At(s.threads, DecCollective) == {};
  }

  /** A strong count of zero is zero in every later state. */
  lemma {:induction false} ZeroIsForever(run: seq<State>, i: nat, j: nat)
    requires IsRun(run) && i <= j < |run| && run[i].strong == 0
    ensures run[j].strong == 0
    decreases j
  {
    if i < j {
      ZeroIsForever(run, i, j - 1);
      RunKeepsInv(run, j - 1);
      assert StepAt(run, j - 1);
      StepKeepsInv(run[j - 1], run[j]);
    }
  }

  /** Locking a weak handle yields a new owner in one atomic step from a positive count, with the
      object alive; it gives up only when the count is zero and will be in every later state. */
  lemma LockIsLinearizable(run: seq<State>, i: nat, t: Thread, made: Handle, spurious: bool)
    requires IsRun(run) && i + 1 < |run| && t in run[i].threads && run[i].threads[t].Try?
    requires Happens(run[i], run[i + 1], Advance(t, made, spurious)) && run[i + 1].threads[t] == Idle
    ensures run[i].threads[t].value > 0 ==>
              && run[i].strong > 0 && run[i].destroyed == 0
              && run[i + 1].strong == run[i].strong + 1 && run[i + 1].shared == run[i].shared + {made}
    ensures run[i].threads[t].value == 0 ==>
              && run[i + 1] == Goto(run[i], t, Idle)
              && forall j :: i <= j < |run| ==> run[j].strong == 0
  {
    RunKeepsInv(run, i);
    assert PcOk(run[i], run[i].threads[t]);
    if run[i].threads[t].value == 0 {
      forall j | i <= j < |run| ensures run[j].strong == 0 {
        ZeroIsForever(run, i, j);
      }
    } else {
      DecrementIsExact(run[i].strong);
    }
  }

  /** The value a locking thread goes by is one the count had during the call, however many failed
      exchanges and steps of other threads lie between the load and now. */
  lemma {:induction false} LockSeesTheCount(run: seq<State>, i: nat, j: nat, t: Thread) returns (k: nat)
    requires IsRun(run) && i < j < |run| && t in run[i].threads && run[i].threads[t].Load?
    requires Trying(run[j], t) && forall m :: i < m <= j ==> Trying(run[m], t)
    ensures i <= k < j && run[k].strong == run[j].threads[t].value
    decreases j
  {
    hide Init, Happens;
    assert StepAt(run, j - 1);
    var event :| Happens(run[j - 1], run[j], event);
    if j - 1 == i || run[j].threads[t] != run[j - 1].threads[t] {
      NewValue(run[j - 1], run[j], event, t);
      k := j - 1;
    } else {
      k := LockSeesTheCount(run, i, j - 1, t);
    }
  }

  /** The thread is at its compare-and-swap. */
  ghost predicate Trying(s: State, t: Thread) {
    t in s.threads && s.threads[t].Try?
  }

  lemma NewValue(s: State, s': State, event: Event, t: Thread)
    requires Happens(s, s', event) && t in s.threads && Trying(s', t) && s'.threads[t] != s.threads[t]
    ensures s'.threads[t].value == s.strong
  {}

  /** A call to lock that gives up had the count at zero at some moment after its load, and the count
      has stayed zero since. */
  lemma FailedLockSawZero(run: seq<State>, i: nat, j: nat, t: Thread) returns (k: nat)
    requires IsRun(run) && i < j < |run| && t in run[i].threads && run[i].threads[t].Load?
    requires Trying(run[j], t) && run[j].threads[t].value == 0 && forall m :: i < m <= j ==> Trying(run[m], t)
    ensures i <= k < j && forall m :: k <= m < |run| ==> run[m].strong == 0
  {
    k := LockSeesTheCount(run, i, j, t);
    forall m | k <= m < |run| ensures run[m].strong == 0 {
      ZeroIsForever(run, k, m);
    }
  }
}
