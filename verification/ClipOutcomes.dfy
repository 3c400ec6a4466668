/** What a handle operation leaves behind, whatever the other threads do until it is over. */
module ClipOutcomes {
  import opened ClipThreads

  // ----- runs -----

  /** A run is its steps one after the other, up to the first fault. */
  lemma {:induction false} RunExtends(s: State, schedule: seq<Event>, e: Event)
    ensures Run(s, []) == Ok(s)
    ensures Run(s, schedule + [e]) == if Run(s, schedule).Ok? then Step(Run(s, schedule).s, e) else Fault
    decreases |schedule|
  {
    hide Step;
    if schedule == [] {
      assert [e][1..] == [];
    } else {
      var longer := schedule + [e];
      assert longer[0] == schedule[0] && longer[1..] == schedule[1..] + [e];
      if Step(s, schedule[0]).Ok? {
        RunExtends(Step(s, schedule[0]).s, schedule[1..], e);
      }
    }
  }

  lemma {:induction false} TurnsExtend(schedule: seq<Event>, e: Event, t: nat)
    ensures Turns([], t) == 0
    ensures Turns(schedule + [e], t) == Turns(schedule, t) + if e.t == t then 1 else 0
    decreases |schedule|
  {
    if schedule == [] {
      assert [e][1..] == [];
    } else {
      assert (schedule + [e])[1..] == schedule[1..] + [e];
      TurnsExtend(schedule[1..], e, t);
    }
  }

  /** Using a clip that is not alive is a fault, for every step that uses one. */
  lemma DeadClipFaults(s: State, e: Event, c: nat)
    requires e.t in s.threads && c !in s.clips
    requires var a := s.threads[e.t];
             || (a.Copying? && a.x == To(c)) || (a.Building? && a.y == c)
             || (a.Releasing? && a.c == c) || (a.Deleting? && a.c == c)
             || (a.Idle? && e.action.Assign? && e.action.source.ChildOf? && e.action.h in s.handles
                 && e.action.source.k in s.handles && s.handles[e.action.h].owner == e.t
                 && s.handles[e.action.source.k] == Slot(To(c), e.t, true))
    ensures Step(s, e) == Fault
  {
  }

  /** The thread is busy up to the end of the schedule, and idle there. */
  ghost predicate UntilIdle(s: State, t: nat, schedule: seq<Event>)
    decreases |schedule|
  {
    && t in s.threads
    && (s.threads[t].Idle? <==> schedule == [])
    && (schedule != [] ==> Step(s, schedule[0]).Ok? && UntilIdle(Step(s, schedule[0]).s, t, schedule[1..]))
  }

  lemma {:induction false} FromPrefixes(s: State, t: nat, schedule: seq<Event>)
    requires Inv(s)
    requires forall i | 0 <= i < |schedule| ::
               var o := Run(s, schedule[..i]); o.Ok? && t in o.s.threads && !o.s.threads[t].Idle?
    requires var o := Run(s, schedule); o.Ok? && t in o.s.threads && o.s.threads[t].Idle?
    ensures UntilIdle(s, t, schedule)
    decreases |schedule|
  {
    hide Step, Inv;
    if schedule != [] {
      var e := schedule[0];
      StepSafe(s, e);
      assert schedule[..0] == [];
      assert Run(s, schedule[..0]) == Ok(s);
      forall i | 0 <= i < |schedule| - 1
        ensures var o := Run(Step(s, e).s, schedule[1..][..i]);
                o.Ok? && t in o.s.threads && !o.s.threads[t].Idle?
      {
        var prefix := schedule[..i + 1];
        assert prefix[0] == e && prefix[1..] == schedule[1..][..i];
        assert Run(s, prefix) == Run(Step(s, e).s, prefix[1..]);
      }
      FromPrefixes(Step(s, e).s, t, schedule[1..]);
    }
  }

  // ----- one step -----

  /** The operation is going to end with that goal. */
  predicate HeadsFor(a: Activity, goal: Goal) {
    match a
    case Copying(h, _, x) => goal == Store(h, x)
    case Added(h, x) => goal == Store(h, x)
    case Releasing(g, _) => goal == g
    case Deleting(g, _) => goal == g
    case Finishing(g) => goal == g
    case _ => false
  }

  predicate Reached(s: State, t: nat, goal: Goal) {
    match goal
    case Store(h, x) => h in s.handles && s.handles[h] == Slot(x, t, true)
    case Discard(h) => h !in s.handles
  }

  /** Of the handles that t owns only h differs. */
  ghost predicate OthersKept(s: State, s2: State, t: nat, h: nat) {
    forall g :: g in s.handles && s.handles[g].owner == t && g != h ==> g in s2.handles && s2.handles[g] == s.handles[g]
  }

  /** A step of the thread's own keeps its goal or reaches it. */
  lemma OwnStepHeads(s: State, e: Event, goal: Goal)
    requires e.t in s.threads && HeadsFor(s.threads[e.t], goal) && Step(s, e).Ok?
    ensures var s2 := Step(s, e).s;
            && e.t in s2.threads && OthersKept(s, s2, e.t, goal.h)
            && if s2.threads[e.t].Idle? then Reached(s2, e.t, goal) else HeadsFor(s2.threads[e.t], goal)
  {
  }

  /** Steps of other threads leave the thread and its handles alone. */
  lemma OtherStepKeeps(s: State, e: Event, t: nat)
    requires Inv(s) && t in s.threads && e.t != t && Step(s, e).Ok?
    ensures var s2 := Step(s, e).s;
            t in s2.threads && s2.threads[t] == s.threads[t] && forall h :: OthersKept(s, s2, t, h)
  {
    hide Inv, Step;
    if e.t in s.threads {
      OthersUndisturbed(s, e);
    } else {
      Absent(s, e);
    }
  }

  /** Numbers of clips are not used twice, and children are fixed. */
  lemma StepKeepsChildren(s: State, e: Event)
    requires Step(s, e).Ok?
    ensures var s2 := Step(s, e).s;
            && s.nextClip <= s2.nextClip
            && forall c :: c < s.nextClip && c in s2.clips ==> c in s.clips && s2.clips[c].child == s.clips[c].child
  {
  }

  // ----- whole operations -----

  lemma {:induction false} GoalReached(s: State, t: nat, goal: Goal, schedule: seq<Event>)
    requires Inv(s) && UntilIdle(s, t, schedule) && HeadsFor(s.threads[t], goal)
    ensures Run(s, schedule).Ok?
    ensures var s2 := Run(s, schedule).s; Reached(s2, t, goal) && OthersKept(s, s2, t, goal.h)
    decreases |schedule|
  {
    hide Inv, Step, HeadsFor;
    assert schedule != [] by { BusyHeads(s.threads[t], goal); }
    var e := schedule[0];
    StepSafe(s, e);
    var s2 := Step(s, e).s;
    if e.t == t {
      OwnStepHeads(s, e, goal);
    } else {
      OtherStepKeeps(s, e, t);
    }
    if schedule[1..] != [] {
      KeptOwners(s, s2, t, goal.h);
      GoalReached(s2, t, goal, schedule[1..]);
    }
  }

  lemma BusyHeads(a: Activity, goal: Goal)
    requires HeadsFor(a, goal)
    ensures !a.Idle?
  {
  }

  lemma KeptOwners(s: State, s2: State, t: nat, h: nat)
    requires OthersKept(s, s2, t, h)
    ensures forall s3 :: OthersKept(s2, s3, t, h) ==> OthersKept(s, s3, t, h)
  {
  }

  lemma {:induction false} RunKeepsChildren(s: State, schedule: seq<Event>)
    requires Run(s, schedule).Ok?
    ensures var s2 := Run(s, schedule).s;
            && s.nextClip <= s2.nextClip
            && forall c :: c < s.nextClip && c in s2.clips ==> c in s.clips && s2.clips[c].child == s.clips[c].child
    decreases |schedule|
  {
    hide Step;
    if schedule != [] {
      StepKeepsChildren(s, schedule[0]);
      RunKeepsChildren(Step(s, schedule[0]).s, schedule[1..]);
    }
  }

  /** From its allocation on a clip ends up in the handle it was made for, with its child. */
  lemma AllocatedArrives(s: State, t: nat, h: nat, child: Ref, schedule: seq<Event>)
    requires var s1 := Allocate(s, t, h, child); Inv(s1) && UntilIdle(s1, t, schedule)
    ensures Run(Allocate(s, t, h, child), schedule).Ok?
    ensures var s2, c := Run(Allocate(s, t, h, child), schedule).s, s.nextClip;
            && h in s2.handles && s2.handles[h] == Slot(To(c), t, true)
            && c in s2.clips && s2.clips[c].child == child
            && OthersKept(s, s2, t, h)
  {
    hide Inv, Step, UntilIdle, Run;
    var s1 := Allocate(s, t, h, child);
    GoalReached(s1, t, Store(h, To(s.nextClip)), schedule);
    RunKeepsChildren(s1, schedule);
    RunSafe(s1, schedule);
    HandleAlive(Run(s1, schedule).s, h);
  }

  lemma HandleAlive(s: State, h: nat)
    requires Inv(s) && h in s.handles && s.handles[h].counted && s.handles[h].p.To?
    ensures s.handles[h].p.clip in s.clips
  {
    hide Counts, Claims, Ordered, Owned;
    assert Live(s.clips.Keys, CountedRef(s.handles[h]));
  }

  /** The reference on the clip below is added first, then the filter is made. */
  lemma {:induction false} BuiltArrives(s: State, t: nat, h: nat, y: nat, schedule: seq<Event>) returns (c: nat)
    requires Inv(s) && UntilIdle(s, t, schedule)
    requires var a := s.threads[t]; (a.Building? && a.target == h && a.y == y) || a == Built(h, y)
    ensures Run(s, schedule).Ok?
    ensures var s2 := Run(s, schedule).s;
            && s.nextClip <= c && h in s2.handles && s2.handles[h] == Slot(To(c), t, true)
            && c in s2.clips && s2.clips[c].child == To(y)
            && OthersKept(s, s2, t, h)
    decreases |schedule|
  {
    hide Inv, Step, Run;
    var e := schedule[0];
    StepSafe(s, e);
    var s2 := Step(s, e).s;
    assert Run(s, schedule) == Run(s2, schedule[1..]) by { RunStarts(s, schedule); }
    if e.t == t && s.threads[t].Built? {
      BuiltStep(s, e, h, y);
      AllocatedArrives(s, t, h, To(y), schedule[1..]);
      c := s.nextClip;
    } else {
      if e.t == t {
        BuildingStep(s, e, h, y);
      } else {
        OtherStepKeeps(s, e, t);
      }
      StepKeepsChildren(s, e);
      KeptOwners(s, s2, t, h);
      c := BuiltArrives(s2, t, h, y, schedule[1..]);
    }
  }

  lemma RunStarts(s: State, schedule: seq<Event>)
    requires schedule != [] && Step(s, schedule[0]).Ok?
    ensures Run(s, schedule) == Run(Step(s, schedule[0]).s, schedule[1..])
  {
  }

  lemma BuiltStep(s: State, e: Event, h: nat, y: nat)
    requires e.t in s.threads && s.threads[e.t] == Built(h, y)
    ensures Step(s, e) == Ok(Allocate(s, e.t, h, To(y)))
  {
  }

  lemma BuildingStep(s: State, e: Event, h: nat, y: nat)
    requires e.t in s.threads && s.threads[e.t].Building? && s.threads[e.t].target == h && s.threads[e.t].y == y
    requires Step(s, e).Ok?
    ensures var s2 := Step(s, e).s;
            e.t in s2.threads && s2.threads[e.t] == Built(h, y) && s2.handles == s.handles
  {
  }

  // ----- what each operation leaves behind -----

  /** Thread t takes the action at the first step and is idle again at the end, for the first time. */
  ghost predicate Completes(s: State, t: nat, action: Action, schedule: seq<Event>) {
    && schedule != [] && schedule[0] == Event(t, action)
    && (forall i | 1 <= i < |schedule| ::
          var o := Run(s, schedule[..i]); o.Ok? && t in o.s.threads && o.s.threads[t] != Idle)
    && var o := Run(s, schedule); o.Ok? && t in o.s.threads && o.s.threads[t] == Idle
  }

  /** Every operation completes, whatever the other threads do, as soon as its thread has had turns enough: two
      for each clip ever made, and nine more. */
  lemma EveryOperationCompletes(s: State, t: nat, action: Action, schedule: seq<Event>) returns (n: nat)
    requires Reachable(s) && t in s.threads && s.threads[t] == Idle
    requires schedule != [] && schedule[0] == Event(t, action)
    requires Turns(schedule, t) >= 2 * s.nextClip + 9
    ensures n <= |schedule| && Completes(s, t, action, schedule[..n])
  {
    hide Inv, Step, Reachable, Begin;
    ReachableInv(s);
    StepSafe(s, schedule[0]);
    var s1 := Step(s, schedule[0]).s;
    FirstStepBounds(s, t, action);
    RemainingBound(s1, t);
    var m := OperationsEnd(s1, t, schedule[1..]);
    n := m + 1;
    hide Run;
    forall i | 1 <= i <= n
      ensures Run(s, schedule[..n][..i]) == Run(s1, schedule[1..][..i - 1])
    {
      var prefix := schedule[..n][..i];
      assert prefix[0] == schedule[0] && prefix[1..] == schedule[1..][..i - 1];
      RunStarts(s, prefix);
    }
    assert schedule[..n][..n] == schedule[..n];
  }

  lemma FirstStepBounds(s: State, t: nat, action: Action)
    requires Inv(s) && t in s.threads && s.threads[t] == Idle && Step(s, Event(t, action)).Ok?
    ensures var s1 := Step(s, Event(t, action)).s; t in s1.threads && s1.nextClip <= s.nextClip + 1
  {
    hide Inv;
  }

  lemma FirstStep(s: State, t: nat, action: Action, schedule: seq<Event>)
    returns (s1: State, rest: seq<Event>)
    requires Reachable(s) && t in s.threads && s.threads[t] == Idle && Completes(s, t, action, schedule)
    ensures Inv(s) && Begin(s, t, action) == Ok(s1) && Inv(s1) && UntilIdle(s1, t, rest)
    ensures Run(s, schedule) == Run(s1, rest)
    ensures s1.threads[t] == Idle ==> Run(s, schedule) == Ok(s1)
    ensures forall h :: s.Owns(t, h) ==> OwnsCounted(s.handles, t, h) && Live(s.clips.Keys, s.handles[h].p)
  {
    hide Inv, Run, Reachable, Begin, Live, OwnsCounted;
    ReachableInv(s);
    var e := schedule[0];
    StepSafe(s, e);
    s1, rest := Step(s, e).s, schedule[1..];
    RunStarts(s, schedule);
    forall i | 0 <= i < |rest|
      ensures var o := Run(s1, rest[..i]); o.Ok? && t in o.s.threads && !o.s.threads[t].Idle?
    {
      var prefix := schedule[..i + 1];
      assert prefix[0] == e && prefix[1..] == rest[..i];
      RunStarts(s, prefix);
    }
    FromPrefixes(s1, t, rest);
    if s1.threads[t] == Idle {
      NothingLeft(s1, t, rest);
    }
    forall h | s.Owns(t, h)
      ensures OwnsCounted(s.handles, t, h) && Live(s.clips.Keys, s.handles[h].p)
    {
      IdleOwnsCounted(s, t, h);
    }
  }

  lemma NothingLeft(s: State, t: nat, schedule: seq<Event>)
    requires UntilIdle(s, t, schedule) && s.threads[t] == Idle
    ensures Run(s, schedule) == Ok(s)
  {
  }

  /** Assignment leaves the source's pointer, as it was when the operation began, and touches no other handle of
      the thread. */
  lemma AssignmentOutcome(s: State, t: nat, h: nat, k: nat, schedule: seq<Event>)
    requires Reachable(s) && t in s.threads && s.threads[t] == Idle
    requires Completes(s, t, Assign(h, Handle(k)), schedule)
    requires h in s.handles && s.handles[h].owner == t && k in s.handles && s.handles[k].owner == t
    ensures var s2 := Run(s, schedule).s;
            && h in s2.handles && s2.handles[h] == Slot(s.handles[k].p, t, true)
            && forall g :: g in s.handles && s.handles[g].owner == t && g != h ==>
                 g in s2.handles && s2.handles[g] == s.handles[g]
  {
    hide Inv, Step, Run, Reachable, UntilIdle, Completes;
    var s1, rest := FirstStep(s, t, Assign(h, Handle(k)), schedule);
    GoalReached(s1, t, Store(h, s.handles[k].p), rest);
  }

  /** Assignment from the child of a filter leaves the child's pointer. */
  lemma ChildAssignmentOutcome(s: State, t: nat, h: nat, k: nat, schedule: seq<Event>)
    requires Reachable(s) && t in s.threads && s.threads[t] == Idle
    requires Completes(s, t, Assign(h, ChildOf(k)), schedule)
    requires h in s.handles && s.handles[h].owner == t && k in s.handles && s.handles[k].owner == t
    requires s.handles[k].p != Null
    ensures s.handles[k].p.clip in s.clips
    ensures var s2 := Run(s, schedule).s;
            && h in s2.handles && s2.handles[h] == Slot(s.clips[s.handles[k].p.clip].child, t, true)
            && forall g :: g in s.handles && s.handles[g].owner == t && g != h ==>
                 g in s2.handles && s2.handles[g] == s.handles[g]
  {
    hide Inv, Step, Run, Reachable, UntilIdle, Completes;
    var s1, rest := FirstStep(s, t, Assign(h, ChildOf(k)), schedule);
    GoalReached(s1, t, Store(h, s.clips[s.handles[k].p.clip].child), rest);
  }

  /** Destruction ends the handle and no other. */
  lemma DestructionOutcome(s: State, t: nat, h: nat, schedule: seq<Event>)
    requires Reachable(s) && t in s.threads && s.threads[t] == Idle && Completes(s, t, Destroy(h), schedule)
    requires h in s.handles && s.handles[h].owner == t
    ensures var s2 := Run(s, schedule).s;
            && h !in s2.handles
            && forall g :: g in s.handles && s.handles[g].owner == t && g != h ==>
                 g in s2.handles && s2.handles[g] == s.handles[g]
  {
    hide Inv, Step, Run, Reachable, UntilIdle, Completes;
    var s1, rest := FirstStep(s, t, Destroy(h), schedule);
    GoalReached(s1, t, Discard(h), rest);
    assert OthersKept(s, s1, t, h);
    KeptOwners(s, s1, t, h);
  }

  /** A new clip is a live one that was not there before, without a child. */
  lemma NewSourceOutcome(s: State, t: nat, h: nat, schedule: seq<Event>)
    requires Reachable(s) && t in s.threads && s.threads[t] == Idle && Completes(s, t, NewSource(h), schedule)
    requires h in s.handles && s.handles[h].owner == t
    ensures s.nextClip !in s.clips
    ensures var s2, c := Run(s, schedule).s, s.nextClip;
            && h in s2.handles && s2.handles[h] == Slot(To(c), t, true)
            && c in s2.clips && s2.clips[c].child == Null
            && forall g :: g in s.handles && s.handles[g].owner == t && g != h ==>
                 g in s2.handles && s2.handles[g] == s.handles[g]
  {
    hide Inv, Step, Run, Reachable, UntilIdle, Completes, Allocate;
    var s1, rest := FirstStep(s, t, NewSource(h), schedule);
    Numbers(s);
    AllocatedArrives(s, t, h, Null, rest);
  }

  /** A new filter is one too, and its child is the clip of the handle it was made from. */
  lemma NewFilterOutcome(s: State, t: nat, h: nat, k: nat, schedule: seq<Event>) returns (c: nat)
    requires Reachable(s) && t in s.threads && s.threads[t] == Idle && Completes(s, t, NewFilter(h, k), schedule)
    requires h in s.handles && s.handles[h].owner == t && k in s.handles && s.handles[k].owner == t
    requires s.handles[k].p != Null
    ensures c !in s.clips
    ensures var s2 := Run(s, schedule).s;
            && h in s2.handles && s2.handles[h] == Slot(To(c), t, true)
            && c in s2.clips && s2.clips[c].child == s.handles[k].p
            && forall g :: g in s.handles && s.handles[g].owner == t && g != h ==>
                 g in s2.handles && s2.handles[g] == s.handles[g]
  {
    hide Inv, Step, Run, Reachable, UntilIdle, Completes;
    var s1, rest := FirstStep(s, t, NewFilter(h, k), schedule);
    Numbers(s);
    c := BuiltArrives(s1, t, h, s.handles[k].p.clip, rest);
  }

  lemma Numbers(s: State)
    requires Inv(s)
    ensures s.nextHandle !in s.handles && forall c :: c in s.clips ==> c < s.nextClip
  {
  }

  /** A declared handle is a new one that points to nothing; a gift changes the owner alone. */
  lemma DeclarationOutcome(s: State, t: nat, schedule: seq<Event>)
    requires Reachable(s) && t in s.threads && s.threads[t] == Idle && Completes(s, t, Declare, schedule)
    ensures s.nextHandle !in s.handles
    ensures Run(s, schedule).s.handles == s.handles[s.nextHandle := Slot(Null, t, true)]
  {
    hide Inv, Step, Run, Reachable, UntilIdle, Completes;
    var s1, rest := FirstStep(s, t, Declare, schedule);
    Numbers(s);
  }

  lemma GiftOutcome(s: State, t: nat, h: nat, receiver: nat, schedule: seq<Event>)
    requires Reachable(s) && t in s.threads && s.threads[t] == Idle && Completes(s, t, Give(h, receiver), schedule)
    requires h in s.handles && s.handles[h].owner == t && receiver in s.threads
    ensures Run(s, schedule).s.handles == s.handles[h := Slot(s.handles[h].p, receiver, true)]
  {
    hide Inv, Step, Run, Reachable, UntilIdle, Completes;
    var s1, rest := FirstStep(s, t, Give(h, receiver), schedule);
  }
}
