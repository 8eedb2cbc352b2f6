/** What whole calls of one thread come to, in any interleaving with the others: from the step after
    which it is busy to the first state in which it is idle again. */
module SharedCalls {
  import opened SharedOwnership

  /** The thread is at work from the state `i` on and idle for the first time again in the state `j`. */
  ghost predicate BusyUntil(run: seq<State>, i: nat, j: nat, t: Thread) {
    && i < j < |run|
    && (forall m :: i <= m < j ==> Busy(run[m], t))
    && t in run[j].threads && run[j].threads[t] == Idle
  }

  ghost predicate Busy(s: State, t: Thread) {
    t in s.threads && s.threads[t] != Idle
  }

  lemma StepOf(run: seq<State>, i: nat)
    requires IsRun(run) && i + 1 < |run|
    ensures Step(run[i], run[i + 1])
  {
    hide Step, Init;
    assert StepAt(run, i);
  }

  lemma BusyAt(run: seq<State>, i: nat, j: nat, t: Thread, m: nat)
    requires BusyUntil(run, i, j, t) && i <= m < j
    ensures Busy(run[m], t)
  {}

  /** A busy thread moves on by its own steps only. */
  lemma OwnStep(s: State, s': State, t: Thread)
    requires Step(s, s') && Busy(s, t)
    ensures t in s'.threads
    ensures s'.threads[t] != s.threads[t] ==> exists made, spurious :: Advances(s, s', t, made, spurious)
  {
    hide RoomForShared, RoomForWeak;
    var event :| Happens(s, s', event);
    if s'.threads[t] != s.threads[t] {
      assert event.Advance? && event.t == t;
      assert Advances(s, s', t, event.made, event.spurious);
    }
  }

  // ---------------------------------------------------------------- locking

  predicate Locking(pc: Pc) {
    pc.Load? || pc.Try?
  }

  /** A thread that locks goes on locking until it is idle. */
  lemma {:induction false} StillLocking(run: seq<State>, i: nat, j: nat, t: Thread, m: nat)
    requires IsRun(run) && BusyUntil(run, i, j, t) && Locking(run[i].threads[t]) && i <= m < j
    ensures Locking(run[m].threads[t])
    decreases m
  {
    if i < m {
      StillLocking(run, i, j, t, m - 1);
      BusyAt(run, i, j, t, m - 1);
      BusyAt(run, i, j, t, m);
      StepOf(run, m - 1);
      OwnStep(run[m - 1], run[m], t);
    }
  }

  /** Where it has last read the count without an exchange. */
  lemma {:induction false} LastLoad(run: seq<State>, i: nat, j: nat, t: Thread, m: nat) returns (l: nat)
    requires IsRun(run) && BusyUntil(run, i, j, t) && run[i].threads[t].Load? && i < m < j && run[m].threads[t].Try?
    ensures i <= l < m && Busy(run[l], t) && run[l].threads[t].Load? && forall k :: l < k <= m ==> Trying(run[k], t)
    decreases m
  {
    StillLocking(run, i, j, t, m - 1);
    assert Busy(run[m - 1], t) && Busy(run[m], t);
    if run[m - 1].threads[t].Load? {
      l := m - 1;
    } else {
      l := LastLoad(run, i, j, t, m - 1);
    }
  }

  /** The step of a locking thread after which it is idle. */
  lemma LastLockStep(s: State, s': State, t: Thread)
    requires Step(s, s') && Busy(s, t) && Locking(s.threads[t]) && t in s'.threads && s'.threads[t] == Idle
    ensures s.threads[t].Try?
    ensures s.threads[t].value > 0 ==>
              s.strong == s.threads[t].value && exists made :: made !in s.shared && s'.shared == s.shared + {made}
  {
    OwnStep(s, s', t);
    var made, spurious :| Advances(s, s', t, made, spurious);
    hide RoomForShared, RoomForWeak;
    if s.threads[t].value > 0 {
      assert made !in s.shared && s'.shared == s.shared + {made};
    }
  }

  /** A call to lock, from before its load until it is over, with any steps of other threads between:
      either the count was zero at some moment of it, or it ends with one new owner, made while the
      count was positive and the object alive. */
  lemma LockEnds(run: seq<State>, i: nat, j: nat, t: Thread)
    requires IsRun(run) && BusyUntil(run, i, j, t) && run[i].threads[t].Load?
    ensures (exists k :: i <= k < j && run[k].strong == 0) ||
            (run[j - 1].strong > 0 && run[j - 1].destroyed == 0 &&
             exists made :: made !in run[j - 1].shared && run[j].shared == run[j - 1].shared + {made})
  {
    hide IsRun, Step, Busy;
    var last := j - 1;
    StillLocking(run, i, j, t, last);
    BusyAt(run, i, j, t, last);
    StepOf(run, last);
    LastLockStep(run[last], run[j], t);
    if run[last].threads[t].value > 0 {
      RunKeepsInv(run, last);
    } else {
      var l := LastLoad(run, i, j, t, last);
      var k := LockSeesTheCount(run, l, last, t);
      assert run[k].strong == 0;
    }
  }

  lemma TwoSteps(s: State, s': State, s'': State, t: Thread, a: Handle, b: Handle)
    requires Busy(s, t) && s.threads[t].Load? && s.strong > 0
    requires Happens(s, s', Advance(t, a, false)) && Happens(s', s'', Advance(t, b, false))
    ensures t in s''.threads && s''.threads[t] == Idle && b !in s.shared && s''.shared == s.shared + {b}
    ensures s''.strong == Inc(s.strong)
  {
    hide Inc, RoomForShared, RoomForWeak;
  }

  /** With the count positive, room for a handle, no step of another thread and no spurious failure, a
      call to lock has made an owner after two steps. */
  lemma LockAlone(run: seq<State>, i: nat, t: Thread, a: Handle, b: Handle)
    requires IsRun(run) && i + 2 < |run| && Busy(run[i], t) && run[i].threads[t].Load?
    requires run[i].strong > 0 && RoomForShared(run[i])
    requires Happens(run[i], run[i + 1], Advance(t, a, false)) && Happens(run[i + 1], run[i + 2], Advance(t, b, false))
    ensures t in run[i + 2].threads && run[i + 2].threads[t] == Idle
    ensures b !in run[i].shared && run[i + 2].shared == run[i].shared + {b}
    ensures run[i + 2].strong == run[i].strong + 1 && run[i + 2].destroyed == 0
  {
    hide IsRun, Happens, HandlesOk, At, Inc;
    TwoSteps(run[i], run[i + 1], run[i + 2], t, a, b);
    RunKeepsInv(run, i);
    Lifetimes(run, i + 2);
    DecrementIsExact(run[i].strong);
  }

  // ---------------------------------------------------------------- the other calls

  /** A thread that makes a handle stands where it is until it has made it. */
  lemma {:induction false} StillMaking(run: seq<State>, i: nat, j: nat, t: Thread, m: nat)
    requires IsRun(run) && BusyUntil(run, i, j, t) && i <= m < j
    requires run[i].threads[t].IncStrong? || run[i].threads[t].IncWeak? || run[i].threads[t].IncWeakFromShared?
    ensures run[m].threads[t] == run[i].threads[t]
    decreases m
  {
    if i < m {
      StillMaking(run, i, j, t, m - 1);
      BusyAt(run, i, j, t, m - 1);
      BusyAt(run, i, j, t, m);
      StepOf(run, m - 1);
      OwnStep(run[m - 1], run[m], t);
    }
  }

  /** The step that makes a shared handle. */
  lemma CopyStep(s: State, s': State, t: Thread)
    requires Step(s, s') && Busy(s, t) && s.threads[t].IncStrong? && t in s'.threads && s'.threads[t] == Idle
    requires Balanced(TallyOf(s))
    ensures s'.strong == Inc(s.strong) && s.strong + 1 < COUNTER_LIMIT
    ensures exists made :: made !in s.shared && s'.shared == s.shared + {made}
  {
    OwnStep(s, s', t);
    var made, spurious :| Advances(s, s', t, made, spurious);
    assert made !in s.shared && s'.shared == s.shared + {made};
    hide At, Inc;
  }

  lemma WeakCopyStep(s: State, s': State, t: Thread)
    requires Step(s, s') && Busy(s, t) && t in s'.threads && s'.threads[t] == Idle && Balanced(TallyOf(s))
    requires s.threads[t].IncWeak? || s.threads[t].IncWeakFromShared?
    ensures s'.weakCount == Inc(s.weakCount) && s.weakCount + 1 < COUNTER_LIMIT
    ensures exists made :: made !in s.weak && s'.weak == s.weak + {made}
  {
    OwnStep(s, s', t);
    var made, spurious :| Advances(s, s', t, made, spurious);
    assert made !in s.weak && s'.weak == s.weak + {made};
    hide At, Inc;
  }

  /** A thread that copies a shared handle finds the object alive. */
  lemma SourceAlive(run: seq<State>, i: nat, t: Thread)
    requires IsRun(run) && i < |run| && Busy(run[i], t) && run[i].threads[t].IncStrong?
    ensures run[i].shared != {} && run[i].strong > 0
  {
    hide IsRun, At;
    RunKeepsInv(run, i);
    assert PcOk(run[i], run[i].threads[t]);
    NotEmpty(run[i].shared, run[i].threads[t].source);
  }

  /** Copying a shared handle ends with one new owner, for which the count has been raised. */
  lemma CopyEnds(run: seq<State>, i: nat, j: nat, t: Thread)
    requires IsRun(run) && BusyUntil(run, i, j, t) && run[i].threads[t].IncStrong?
    ensures run[j].strong == run[j - 1].strong + 1 && run[j - 1].strong > 0 && run[j].destroyed == 0
    ensures exists made :: made !in run[j - 1].shared && run[j].shared == run[j - 1].shared + {made}
  {
    hide IsRun, Balanced, HandlesOk, Inc, Step, Busy;
    StillMaking(run, i, j, t, j - 1);
    BusyAt(run, i, j, t, j - 1);
    StepOf(run, j - 1);
    SourceAlive(run, j - 1, t);
    RunKeepsInv(run, j - 1);
    Lifetimes(run, j);
    CopyStep(run[j - 1], run[j], t);
    DecrementIsExact(run[j - 1].strong);
  }

  /** Making a weak handle, from a shared or a weak one, ends with one more. */
  lemma WeakCopyEnds(run: seq<State>, i: nat, j: nat, t: Thread)
    requires IsRun(run) && BusyUntil(run, i, j, t)
    requires run[i].threads[t].IncWeak? || run[i].threads[t].IncWeakFromShared?
    ensures run[j].weakCount == run[j - 1].weakCount + 1 && run[j].freed == 0
    ensures exists made :: made !in run[j - 1].weak && run[j].weak == run[j - 1].weak + {made}
  {
    hide IsRun, Balanced, HandlesOk, Inc, Step, Busy;
    StillMaking(run, i, j, t, j - 1);
    BusyAt(run, i, j, t, j - 1);
    StepOf(run, j - 1);
    RunKeepsInv(run, j - 1);
    Lifetimes(run, j);
    WeakCopyStep(run[j - 1], run[j], t);
    DecrementIsExact(run[j - 1].weakCount);
  }

  /** An idle thread may begin any call on a handle that is there, if it is not one to be released that
      another thread copies or locks; the call finds the counters as they were. */
  lemma MayBegin(s: State, t: Thread, h: Handle)
    requires IsIdle(s, t)
    ensures h in s.shared ==> Step(s, Goto(s, t, IncStrong(h))) && Step(s, Goto(s, t, IncWeakFromShared(h)))
    ensures h in s.weak ==> Step(s, Goto(s, t, IncWeak(h))) && Step(s, Goto(s, t, Load(h)))
    ensures h in s.shared && !Pinned(s, h) ==> Step(s, Goto(s.(shared := s.shared - {h}), t, DecStrong))
    ensures h in s.weak && !Pinned(s, h) ==> Step(s, Goto(s.(weak := s.weak - {h}), t, DecWeak))
  {
    if h in s.shared {
      assert Happens(s, Goto(s, t, IncStrong(h)), BeginCopy(t, h));
      assert Happens(s, Goto(s, t, IncWeakFromShared(h)), BeginWeakFrom(t, h));
    }
    if h in s.weak {
      assert Happens(s, Goto(s, t, IncWeak(h)), BeginWeakCopy(t, h));
      assert Happens(s, Goto(s, t, Load(h)), BeginLock(t, h));
    }
    if h in s.shared && !Pinned(s, h) {
      assert Happens(s, Goto(s.(shared := s.shared - {h}), t, DecStrong), BeginRelease(t, h));
    }
    if h in s.weak && !Pinned(s, h) {
      assert Happens(s, Goto(s.(weak := s.weak - {h}), t, DecWeak), BeginWeakRelease(t, h));
    }
  }

  /** A handle that no thread copies or locks may be moved to a new place. */
  lemma MayMove(s: State, h: Handle, k: Handle)
    requires k !in s.shared && k !in s.weak && !Pinned(s, h)
    ensures h in s.shared ==> Step(s, s.(shared := s.shared - {h} + {k}))
    ensures h in s.weak ==> Step(s, s.(weak := s.weak - {h} + {k}))
  {
    if h in s.shared {
      assert Happens(s, s.(shared := s.shared - {h} + {k}), Move(h, k));
    }
    if h in s.weak {
      assert Happens(s, s.(weak := s.weak - {h} + {k}), MoveWeak(h, k));
    }
  }

  /** No thread is ever stuck: while there is room for a handle, a busy one has a next step. */
  lemma NeverStuck(s: State, t: Thread, made: Handle)
    requires Busy(s, t) && made !in s.shared && made !in s.weak && RoomForShared(s) && RoomForWeak(s)
    ensures exists s' :: Happens(s, s', Advance(t, made, false))
  {
    hide RoomForShared, RoomForWeak;
    var next :=
      match s.threads[t]
      case IncStrong(_) => Goto(s.(strong := Inc(s.strong), shared := s.shared + {made}), t, Idle)
      case DecStrong => Goto(s.(strong := Dec(s.strong)), t, if Dec(s.strong) == 0 then DestroyObject else Idle)
      case DestroyObject => Goto(s.(destroyed := s.destroyed + 1), t, DecCollective)
      case DecCollective =>
        Goto(s.(weakCount := Dec(s.weakCount)), t, if Dec(s.weakCount) == 0 then DestroyBlock else Idle)
      case DecWeak => Goto(s.(weakCount := Dec(s.weakCount)), t, if Dec(s.weakCount) == 0 then DestroyBlock else Idle)
      case DestroyBlock => Goto(s.(freed := s.freed + 1), t, Idle)
      case Load(source) => Goto(s, t, Try(source, s.strong))
      case Try(source, value) =>
        if value == 0 then Goto(s, t, Idle)
        else if s.strong == value then Goto(s.(strong := Inc(value), shared := s.shared + {made}), t, Idle)
        else Goto(s, t, Try(source, s.strong))
      case _ => Goto(s.(weakCount := Inc(s.weakCount), weak := s.weak + {made}), t, Idle);
    assert Happens(s, next, Advance(t, made, false));
  }

  /** How many steps a call has still to make, at most; a lock counts those of its last exchange. */
  function StepsLeft(pc: Pc): nat {
    match pc
    case Idle => 0
    case DecStrong => 4
    case DestroyObject => 3
    case DecCollective => 2
    case DecWeak => 2
    case Load(_) => 2
    case _ => 1
  }

  /** Every step of a thread brings its call nearer to the end, but for an exchange that fails because the
      count has changed or for no reason; that one takes the new count. */
  lemma EveryStepCounts(s: State, s': State, t: Thread, made: Handle, spurious: bool)
    requires Advances(s, s', t, made, spurious)
    ensures t in s'.threads
    ensures StepsLeft(s'.threads[t]) < StepsLeft(s.threads[t]) ||
            (s.threads[t].Try? && s'.threads[t] == Try(s.threads[t].source, s.strong) &&
             s.threads[t].value > 0 && (spurious || s.threads[t].value != s.strong))
  {
    hide RoomForShared, RoomForWeak, Inc, Dec;
  }
}
