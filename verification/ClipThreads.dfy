/** The reference counts of AviSynth clips under concurrency. Several threads copy, assign and destroy
    clip handles; the interlocked increment, the interlocked decrement with its test, the deletion and
    the pointer store are separate steps, and a schedule interleaves them freely. */
module ClipThreads {

  datatype Ref = Null | To(clip: nat)

  /** A PClip, or an AVSValue of clip type, owned by one thread. `counted` turns false when the owner
      begins to give up the reference behind the pointer. */
  datatype Slot = Slot(p: Ref, owner: nat, counted: bool)

  /** A live clip; a filter has a child, fixed at construction. */
  datatype Cell = Cell(refcnt: int, child: Ref)

  /** Where a copied pointer comes from: a handle, the child of the clip behind a handle, or `new`. */
  datatype Source = Handle(k: nat) | ChildOf(k: nat) | Newborn

  /** What remains once the old reference is gone: the pointer store, or the end of the handle. */
  datatype Goal = Store(h: nat, x: Ref) | Discard(h: nat)

  /** The program counter of a thread. */
  datatype Activity =
    | Idle
    | Copying(target: nat, source: Source, x: Ref)
    | Building(target: nat, k: nat, y: nat)
    | Built(target: nat, y: nat)
    | Added(target: nat, x: Ref)
    | Releasing(goal: Goal, c: nat)
    | Deleting(goal: Goal, c: nat)
    | Finishing(goal: Goal)

  datatype Action =
    | Declare
    | Assign(h: nat, source: Source)
    | NewSource(h: nat)
    | NewFilter(h: nat, k: nat)
    | Destroy(h: nat)
    | Give(h: nat, receiver: nat)

  /** Thread t takes its next step; the action matters only when t is idle. */
  datatype Event = Event(t: nat, action: Action)

  /** Clips and handles are numbered in the order of their creation. */
  datatype State = State(
    clips: map<nat, Cell>, nextClip: nat,
    handles: map<nat, Slot>, nextHandle: nat,
    threads: map<nat, Activity>)
  {
    predicate Owns(t: nat, h: nat) {
      h in handles && handles[h].owner == t
    }

    function Go(t: nat, a: Activity): State {
      this.(threads := threads[t := a])
    }
  }

  /** Fault: a thread touched a clip that is not alive. */
  datatype Outcome = Ok(s: State) | Fault

  function Initial(threads: set<nat>): State {
    State(map[], 0, map[], 0, map t | t in threads :: Idle)
  }

  /** An action that breaks the ownership discipline is not taken. */
  function Begin(s: State, t: nat, action: Action): Outcome {
    match action
    case Declare =>
      Ok(s.(handles := s.handles[s.nextHandle := Slot(Null, t, true)], nextHandle := s.nextHandle + 1))
    case Assign(h, Handle(k)) =>
      if s.Owns(t, h) && s.Owns(t, k) then Ok(s.Go(t, Copying(h, Handle(k), s.handles[k].p))) else Ok(s)
    case Assign(h, ChildOf(k)) =>
      if s.Owns(t, h) && s.Owns(t, k) && s.handles[k].p.To? then
        var d := s.handles[k].p.clip;
        if d in s.clips then Ok(s.Go(t, Copying(h, ChildOf(k), s.clips[d].child))) else Fault
      else
        Ok(s)
    case NewSource(h) =>
      if s.Owns(t, h) then Ok(Allocate(s, t, h, Null)) else Ok(s)
    case NewFilter(h, k) =>
      if s.Owns(t, h) && s.Owns(t, k) && s.handles[k].p.To? then
        Ok(s.Go(t, Building(h, k, s.handles[k].p.clip)))
      else
        Ok(s)
    case Destroy(h) =>
      if s.Owns(t, h) then Ok(LetGo(s, t, Discard(h))) else Ok(s)
    case Give(h, receiver) =>
      if s.Owns(t, h) && receiver in s.threads then
        Ok(s.(handles := s.handles[h := s.handles[h].(owner := receiver)]))
      else
        Ok(s)
    case _ => Ok(s)
  }

  /** `new`: the raw pointer of the uncounted clip is about to be put into handle h. */
  function Allocate(s: State, t: nat, h: nat, child: Ref): State {
    s.(clips := s.clips[s.nextClip := Cell(0, child)], nextClip := s.nextClip + 1)
     .Go(t, Copying(h, Newborn, To(s.nextClip)))
  }

  /** if (p) p->Release() up to the decrement: the pointer is read, and its reference is given up. */
  function LetGo(s: State, t: nat, goal: Goal): State
    requires goal.h in s.handles
  {
    match s.handles[goal.h].p
    case Null => s.Go(t, Finishing(goal))
    case To(c) =>
      s.(handles := s.handles[goal.h := s.handles[goal.h].(counted := false)]).Go(t, Releasing(goal, c))
  }

  /** The interlocked addition of delta, followed by the program counter a. */
  function Add(s: State, t: nat, c: nat, delta: int, a: Activity): Outcome {
    if c in s.clips then
      Ok(s.(clips := s.clips[c := s.clips[c].(refcnt := s.clips[c].refcnt + delta)]).Go(t, a))
    else
      Fault
  }

  function Delete(s: State, t: nat, goal: Goal, c: nat): Outcome {
    if c !in s.clips then Fault
    else
      var next := match s.clips[c].child case Null => Finishing(goal) case To(d) => Releasing(goal, d);
      Ok(s.(clips := s.clips - {c}).Go(t, next))
  }

  function Finish(s: State, t: nat, goal: Goal): State {
    match goal
    case Store(h, x) => s.(handles := s.handles[h := Slot(x, t, true)]).Go(t, Idle)
    case Discard(h) => s.(handles := s.handles - {h}).Go(t, Idle)
  }

  /** One atomic step. */
  function Step(s: State, e: Event): Outcome {
    if e.t !in s.threads then Ok(s)
    else
      match s.threads[e.t]
      case Idle => Begin(s, e.t, e.action)
      case Copying(h, _, Null) => Ok(s.Go(e.t, Added(h, Null)))
      case Copying(h, _, To(c)) => Add(s, e.t, c, 1, Added(h, To(c)))
      case Building(h, _, y) => Add(s, e.t, y, 1, Built(h, y))
      case Built(h, y) => Ok(Allocate(s, e.t, h, To(y)))
      case Added(h, x) => if h in s.handles then Ok(LetGo(s, e.t, Store(h, x))) else Fault
      case Releasing(goal, c) =>
        Add(s, e.t, c, -1, if c in s.clips && s.clips[c].refcnt == 1 then Deleting(goal, c) else Finishing(goal))
      case Deleting(goal, c) => Delete(s, e.t, goal, c)
      case Finishing(goal) => Ok(Finish(s, e.t, goal))
  }

  /** A whole run: any interleaving of any number of threads. */
  function Run(s: State, schedule: seq<Event>): Outcome
    decreases |schedule|
  {
    if schedule == [] then Ok(s)
    else
      match Step(s, schedule[0])
      case Ok(next) => Run(next, schedule[1..])
      case Fault => Fault
  }

  /** The reference a handle accounts for. */
  function CountedRef(slot: Slot): Ref {
    if slot.counted then slot.p else Null
  }

  function ChildRef(cell: Cell): Ref {
    cell.child
  }

  /** The reference a thread has added and not yet stored. */
  function PendingRef(a: Activity): Ref {
    match a
    case Added(_, x) => x
    case Built(_, y) => To(y)
    case Releasing(Store(_, x), _) => x
    case Deleting(Store(_, x), _) => x
    case Finishing(Store(_, x)) => x
    case _ => Null
  }

  /** The reference a thread is about to subtract. */
  function DoomedRef(a: Activity): Ref {
    match a
    case Releasing(_, c) => To(c)
    case _ => Null
  }

  /** The clip of count zero that a thread has to itself: one it has just made, or one whose count it
      took to zero. */
  function ClaimedRef(a: Activity): Ref {
    match a
    case Copying(_, Newborn, x) => x
    case Deleting(_, c) => To(c)
    case _ => Null
  }

  ghost function Holders<T(!new)>(m: map<nat, T>, ref: T -> Ref, c: nat): set<nat> {
    set k | k in m && ref(m[k]) == To(c)
  }

  /** Handles, children and references in flight. */
  ghost function References(
    clips: map<nat, Cell>, handles: map<nat, Slot>, threads: map<nat, Activity>, c: nat): nat
  {
    |Holders(handles, CountedRef, c)| + |Holders(clips, ChildRef, c)|
    + |Holders(threads, PendingRef, c)| + |Holders(threads, DoomedRef, c)|
  }

  ghost predicate Counts(clips: map<nat, Cell>, handles: map<nat, Slot>, threads: map<nat, Activity>) {
    forall c :: c in clips ==> clips[c].refcnt == References(clips, handles, threads, c)
  }

  /** Exactly the clips of count zero are claimed, each by one thread. */
  ghost predicate Claims(clips: map<nat, Cell>, threads: map<nat, Activity>) {
    forall c :: c in clips ==> |Holders(threads, ClaimedRef, c)| == if clips[c].refcnt == 0 then 1 else 0
  }

  predicate Live(live: set<nat>, r: Ref) {
    r.To? ==> r.clip in live
  }

  ghost predicate NoDangling(clips: map<nat, Cell>, handles: map<nat, Slot>, threads: map<nat, Activity>) {
    && (forall h :: h in handles ==> Live(clips.Keys, CountedRef(handles[h])))
    && (forall c :: c in clips ==> Live(clips.Keys, ChildRef(clips[c])))
    && (forall t :: t in threads ==> Live(clips.Keys, PendingRef(threads[t])))
    && (forall t :: t in threads ==> Live(clips.Keys, DoomedRef(threads[t])))
    && (forall t :: t in threads ==> Live(clips.Keys, ClaimedRef(threads[t])))
  }

  /** Children are older than their filters. */
  ghost predicate Ordered(s: State) {
    && (forall c :: c in s.clips ==> c < s.nextClip && (s.clips[c].child.To? ==> s.clips[c].child.clip < c))
    && (forall h :: h in s.handles ==> h < s.nextHandle)
  }

  predicate OwnsCounted(handles: map<nat, Slot>, t: nat, h: nat) {
    h in handles && handles[h].owner == t && handles[h].counted
  }

  predicate OwnsSpent(handles: map<nat, Slot>, t: nat, h: nat) {
    h in handles && handles[h].owner == t && CountedRef(handles[h]).Null?
  }

  /** The pointer being copied is protected by its source. */
  predicate SourceHeld(clips: map<nat, Cell>, handles: map<nat, Slot>, t: nat, source: Source, x: Ref) {
    match source
    case Handle(k) => OwnsCounted(handles, t, k) && handles[k].p == x
    case ChildOf(k) =>
      && OwnsCounted(handles, t, k)
      && handles[k].p.To? && handles[k].p.clip in clips && clips[handles[k].p.clip].child == x
    case Newborn => x.To?
  }

  predicate Proper(clips: map<nat, Cell>, handles: map<nat, Slot>, t: nat, a: Activity) {
    match a
    case Idle => true
    case Copying(h, source, x) => OwnsCounted(handles, t, h) && SourceHeld(clips, handles, t, source, x)
    case Building(h, k, y) => OwnsCounted(handles, t, h) && OwnsCounted(handles, t, k) && handles[k].p == To(y)
    case Built(h, y) => OwnsCounted(handles, t, h)
    case Added(h, x) => OwnsCounted(handles, t, h)
    case Releasing(goal, c) => OwnsSpent(handles, t, goal.h)
    case Deleting(goal, c) => OwnsSpent(handles, t, goal.h)
    case Finishing(goal) => OwnsSpent(handles, t, goal.h)
  }

  predicate Spending(a: Activity, h: nat) {
    (a.Releasing? || a.Deleting? || a.Finishing?) && a.goal.h == h
  }

  /** Threads keep to their own handles, and only a thread that is busy with a handle has spent it. */
  ghost predicate Owned(clips: map<nat, Cell>, handles: map<nat, Slot>, threads: map<nat, Activity>) {
    && (forall t :: t in threads ==> Proper(clips, handles, t, threads[t]))
    && (forall h :: h in handles && !handles[h].counted ==>
          handles[h].owner in threads && Spending(threads[handles[h].owner], h))
  }

  ghost predicate Inv(s: State) {
    && Counts(s.clips, s.handles, s.threads) && Claims(s.clips, s.threads)
    && NoDangling(s.clips, s.handles, s.threads) && Ordered(s) && Owned(s.clips, s.handles, s.threads)
  }

  function Is(r: Ref, c: nat): nat {
    if r == To(c) then 1 else 0
  }

  lemma HoldersUpdated<T(!new)>(m: map<nat, T>, ref: T -> Ref, k: nat, v: T)
    ensures forall c :: |Holders(m[k := v], ref, c)|
                        == |Holders(m, ref, c)| + Is(ref(v), c) - (if k in m then Is(ref(m[k]), c) else 0)
  {
    forall c
      ensures |Holders(m[k := v], ref, c)|
              == |Holders(m, ref, c)| + Is(ref(v), c) - (if k in m then Is(ref(m[k]), c) else 0)
    {
      var before, after := Holders(m, ref, c), Holders(m[k := v], ref, c);
      assert before - {k} == after - {k};
      assert k in before <==> k in m && ref(m[k]) == To(c);
      assert k in after <==> ref(v) == To(c);
      assert |before - {k}| == |before| - if k in before then 1 else 0;
      assert |after - {k}| == |after| - if k in after then 1 else 0;
    }
  }

  lemma HoldersRemoved<T(!new)>(m: map<nat, T>, ref: T -> Ref, k: nat)
    requires k in m
    ensures forall c :: |Holders(m - {k}, ref, c)| == |Holders(m, ref, c)| - Is(ref(m[k]), c)
  {
    forall c
      ensures |Holders(m - {k}, ref, c)| == |Holders(m, ref, c)| - Is(ref(m[k]), c)
    {
      assert Holders(m - {k}, ref, c) == Holders(m, ref, c) - {k};
    }
  }

  lemma ActivityChanged(threads: map<nat, Activity>, t: nat, a: Activity)
    requires t in threads
    ensures forall c :: |Holders(threads[t := a], PendingRef, c)|
                        == |Holders(threads, PendingRef, c)| + Is(PendingRef(a), c) - Is(PendingRef(threads[t]), c)
    ensures forall c :: |Holders(threads[t := a], DoomedRef, c)|
                        == |Holders(threads, DoomedRef, c)| + Is(DoomedRef(a), c) - Is(DoomedRef(threads[t]), c)
    ensures forall c :: |Holders(threads[t := a], ClaimedRef, c)|
                        == |Holders(threads, ClaimedRef, c)| + Is(ClaimedRef(a), c) - Is(ClaimedRef(threads[t]), c)
  {
    HoldersUpdated(threads, PendingRef, t, a);
    HoldersUpdated(threads, DoomedRef, t, a);
    HoldersUpdated(threads, ClaimedRef, t, a);
  }

  lemma NoHolder<T(!new)>(m: map<nat, T>, ref: T -> Ref, c: nat)
    requires |Holders(m, ref, c)| == 0
    ensures forall k :: k in m ==> ref(m[k]) != To(c)
  {
    forall k | k in m
      ensures ref(m[k]) != To(c)
    {
      assert ref(m[k]) == To(c) ==> k in Holders(m, ref, c);
    }
  }

  lemma Holder<T(!new)>(m: map<nat, T>, ref: T -> Ref, k: nat, c: nat)
    requires k in m && ref(m[k]) == To(c)
    ensures |Holders(m, ref, c)| >= 1
  {
    assert k in Holders(m, ref, c);
  }

  /** A step balances the books when the counts change as the references do. */
  lemma Balanced(clips: map<nat, Cell>, handles: map<nat, Slot>, threads: map<nat, Activity>,
                 clips2: map<nat, Cell>, handles2: map<nat, Slot>, t: nat, a: Activity)
    requires Counts(clips, handles, threads) && Claims(clips, threads) && t in threads
    requires forall c :: c in clips2 && c !in clips ==>
               References(clips, handles, threads, c) == 0 == |Holders(threads, ClaimedRef, c)|
    requires forall c :: c in clips2 ==>
               clips2[c].refcnt - (if c in clips then clips[c].refcnt else 0)
               == |Holders(handles2, CountedRef, c)| - |Holders(handles, CountedRef, c)|
                + |Holders(clips2, ChildRef, c)| - |Holders(clips, ChildRef, c)|
                + Is(PendingRef(a), c) - Is(PendingRef(threads[t]), c)
                + Is(DoomedRef(a), c) - Is(DoomedRef(threads[t]), c)
    requires forall c :: c in clips2 ==>
               Is(ClaimedRef(a), c) - Is(ClaimedRef(threads[t]), c)
               == (if clips2[c].refcnt == 0 then 1 else 0) - (if c in clips && clips[c].refcnt == 0 then 1 else 0)
    ensures Counts(clips2, handles2, threads[t := a]) && Claims(clips2, threads[t := a])
  {
    hide Holders, Is, PendingRef, DoomedRef, ClaimedRef;
    ActivityChanged(threads, t, a);
  }

  /** What the owner of a handle does with it leaves the other threads undisturbed. */
  lemma OwnedKept(clips: map<nat, Cell>, handles: map<nat, Slot>, threads: map<nat, Activity>,
                  clips2: map<nat, Cell>, handles2: map<nat, Slot>, t: nat, a: Activity)
    requires Owned(clips, handles, threads) && t in threads
    requires forall h :: h in handles && handles[h].owner != t ==> h in handles2 && handles2[h] == handles[h]
    requires forall h :: h in handles2 && handles2[h].owner != t && !handles2[h].counted ==>
               h in handles && handles[h] == handles2[h]
    requires forall h :: h in handles && CountedRef(handles[h]).To? && CountedRef(handles[h]).clip in clips ==>
               var c := CountedRef(handles[h]).clip; c in clips2 && clips2[c].child == clips[c].child
    requires Proper(clips2, handles2, t, a)
    requires forall h :: h in handles2 && handles2[h].owner == t && !handles2[h].counted ==> Spending(a, h)
    ensures Owned(clips2, handles2, threads[t := a])
  {
    forall u | u in threads
      ensures Proper(clips2, handles2, u, if u == t then a else threads[u])
    {
      assert Proper(clips, handles, u, threads[u]);
    }
  }

  lemma OwnedStill(clips: map<nat, Cell>, handles: map<nat, Slot>, threads: map<nat, Activity>,
                   clips2: map<nat, Cell>, t: nat, a: Activity)
    requires Owned(clips, handles, threads) && t in threads
    requires forall h :: h in handles && CountedRef(handles[h]).To? && CountedRef(handles[h]).clip in clips ==>
               var c := CountedRef(handles[h]).clip; c in clips2 && clips2[c].child == clips[c].child
    requires Proper(clips2, handles, t, a)
    requires forall h :: Spending(threads[t], h) ==> Spending(a, h)
    ensures Owned(clips2, handles, threads[t := a])
  {
    hide Proper, Spending, CountedRef;
    OwnedKept(clips, handles, threads, clips2, handles, t, a);
  }

  /** The thread moves on without touching a clip or a handle. */
  lemma MovesOn(s: State, t: nat, a: Activity)
    requires Inv(s) && t in s.threads
    requires PendingRef(a) == PendingRef(s.threads[t]) && DoomedRef(a) == DoomedRef(s.threads[t])
    requires ClaimedRef(a) == ClaimedRef(s.threads[t])
    requires Proper(s.clips, s.handles, t, a) && forall h :: Spending(s.threads[t], h) ==> Spending(a, h)
    ensures Inv(s.Go(t, a))
  {
    hide Holders, Proper, Spending, Counts, Claims, PendingRef, DoomedRef, ClaimedRef;
    Balanced(s.clips, s.handles, s.threads, s.clips, s.handles, t, a);
    OwnedStill(s.clips, s.handles, s.threads, s.clips, t, a);
  }

  lemma AddedProper(clips: map<nat, Cell>, handles: map<nat, Slot>, t: nat, a: Activity)
    requires (a.Added? || a.Built?) && OwnsCounted(handles, t, a.target)
    ensures Proper(clips, handles, t, a)
    ensures DoomedRef(a) == Null == ClaimedRef(a)
  {
  }

  lemma Positive(s: State, c: nat)
    requires Inv(s) && c in s.clips
    ensures s.clips[c].refcnt >= 0
  {
  }

  lemma ProperApartFromClips(clips: map<nat, Cell>, clips2: map<nat, Cell>, handles: map<nat, Slot>,
                             t: nat, a: Activity)
    requires a.Added? || a.Built? || a.Deleting? || a.Finishing?
    ensures Proper(clips, handles, t, a) <==> Proper(clips2, handles, t, a)
  {
  }

  /** An interlocked addition disturbs nothing but the count. */
  lemma AddKeeps(s: State, t: nat, c: nat, delta: int, a: Activity)
    requires NoDangling(s.clips, s.handles, s.threads) && Ordered(s) && Owned(s.clips, s.handles, s.threads)
    requires t in s.threads && c in s.clips
    requires Live(s.clips.Keys, PendingRef(a)) && Live(s.clips.Keys, DoomedRef(a)) && Live(s.clips.Keys, ClaimedRef(a))
    requires a.Added? || a.Built? || a.Deleting? || a.Finishing?
    requires Proper(s.clips, s.handles, t, a) && forall h :: Spending(s.threads[t], h) ==> Spending(a, h)
    ensures Add(s, t, c, delta, a).Ok?
    ensures var s2 := Add(s, t, c, delta, a).s;
            NoDangling(s2.clips, s2.handles, s2.threads) && Ordered(s2) && Owned(s2.clips, s2.handles, s2.threads)
  {
    hide PendingRef, DoomedRef, ClaimedRef, Proper, Owned, CountedRef, Spending, Live;
    var clips := s.clips[c := s.clips[c].(refcnt := s.clips[c].refcnt + delta)];
    assert clips.Keys == s.clips.Keys;
    ProperApartFromClips(s.clips, clips, s.handles, t, a);
    OwnedStill(s.clips, s.handles, s.threads, clips, t, a);
  }

  /** The interlocked increment: a pointer of count zero is counted by the thread that made the clip. */
  lemma Increments(s: State, t: nat, c: nat, a: Activity)
    requires Inv(s) && t in s.threads && c in s.clips
    requires PendingRef(s.threads[t]) == Null == DoomedRef(s.threads[t])
    requires ClaimedRef(s.threads[t]) == if s.clips[c].refcnt == 0 then To(c) else Null
    requires (a.Added? || a.Built?) && OwnsCounted(s.handles, t, a.target) && PendingRef(a) == To(c)
    requires forall h :: !Spending(s.threads[t], h)
    ensures Add(s, t, c, 1, a).Ok? && Inv(Add(s, t, c, 1, a).s)
  {
    hide Holders, Proper, Spending, Counts, Claims, PendingRef, DoomedRef, ClaimedRef, OwnsCounted, Owned, Ordered,
         NoDangling;
    var cell := s.clips[c].(refcnt := s.clips[c].refcnt + 1);
    HoldersUpdated(s.clips, ChildRef, c, cell);
    Positive(s, c);
    AddedProper(s.clips, s.handles, t, a);
    Balanced(s.clips, s.handles, s.threads, s.clips[c := cell], s.handles, t, a);
    AddKeeps(s, t, c, 1, a);
  }

  lemma ReleasingFacts(clips: map<nat, Cell>, handles: map<nat, Slot>, t: nat, goal: Goal, c: nat)
    ensures PendingRef(Releasing(goal, c)) == PendingRef(Deleting(goal, c)) == PendingRef(Finishing(goal))
    ensures DoomedRef(Releasing(goal, c)) == To(c)
    ensures DoomedRef(Deleting(goal, c)) == DoomedRef(Finishing(goal)) == Null
    ensures ClaimedRef(Releasing(goal, c)) == ClaimedRef(Finishing(goal)) == Null
    ensures ClaimedRef(Deleting(goal, c)) == To(c)
    ensures Proper(clips, handles, t, Releasing(goal, c)) <==> OwnsSpent(handles, t, goal.h)
    ensures Proper(clips, handles, t, Deleting(goal, c)) <==> OwnsSpent(handles, t, goal.h)
    ensures Proper(clips, handles, t, Finishing(goal)) <==> OwnsSpent(handles, t, goal.h)
    ensures forall h :: Spending(Releasing(goal, c), h) <==> h == goal.h
    ensures forall h :: Spending(Deleting(goal, c), h) <==> h == goal.h
    ensures forall h :: Spending(Finishing(goal), h) <==> h == goal.h
  {
  }

  /** The interlocked decrement, which tells exactly one thread that it has to delete the clip. */
  lemma Decrements(s: State, t: nat, goal: Goal, c: nat, a: Activity)
    requires Inv(s) && t in s.threads && s.threads[t] == Releasing(goal, c) && c in s.clips
    requires a == if s.clips[c].refcnt == 1 then Deleting(goal, c) else Finishing(goal)
    ensures Add(s, t, c, -1, a).Ok? && Inv(Add(s, t, c, -1, a).s)
  {
    hide Holders, Proper, Spending, Counts, Claims, PendingRef, DoomedRef, ClaimedRef, OwnsSpent, Owned, Ordered,
         NoDangling;
    var cell := s.clips[c].(refcnt := s.clips[c].refcnt - 1);
    HoldersUpdated(s.clips, ChildRef, c, cell);
    ReleasingFacts(s.clips, s.handles, t, goal, c);
    Doomed(s, t, goal, c);
    Balanced(s.clips, s.handles, s.threads, s.clips[c := cell], s.handles, t, a);
    AddKeeps(s, t, c, -1, a);
  }

  lemma Doomed(s: State, t: nat, goal: Goal, c: nat)
    requires Inv(s) && t in s.threads && s.threads[t] == Releasing(goal, c)
    ensures c in s.clips && s.clips[c].refcnt >= 1
    ensures Live(s.clips.Keys, PendingRef(s.threads[t])) && Proper(s.clips, s.handles, t, s.threads[t])
  {
    Holder(s.threads, DoomedRef, t, c);
  }

  /** A clip about to be deleted is alive and has no reference left. */
  lemma Unreferenced(s: State, t: nat, goal: Goal, c: nat)
    requires Inv(s) && t in s.threads && s.threads[t] == Deleting(goal, c)
    ensures c in s.clips && s.clips[c].refcnt == 0
    ensures forall h :: h in s.handles ==> CountedRef(s.handles[h]) != To(c)
    ensures forall d :: d in s.clips ==> ChildRef(s.clips[d]) != To(c)
    ensures forall u :: u in s.threads ==> PendingRef(s.threads[u]) != To(c) && DoomedRef(s.threads[u]) != To(c)
    ensures forall u :: u in s.threads && u != t ==> ClaimedRef(s.threads[u]) != To(c)
  {
    hide Holders, Owned, Ordered;
    Holder(s.threads, ClaimedRef, t, c);
    NoHolder(s.handles, CountedRef, c);
    NoHolder(s.clips, ChildRef, c);
    NoHolder(s.threads, PendingRef, c);
    NoHolder(s.threads, DoomedRef, c);
    HoldersUpdated(s.threads, ClaimedRef, t, Idle);
    NoHolder(s.threads[t := Idle], ClaimedRef, c);
    var others := s.threads[t := Idle];
    assert forall u :: u in s.threads && u != t ==> u in others && others[u] == s.threads[u];
  }

  /** Deletion: the child handle gives up the reference to the clip below. */
  lemma Deletes(s: State, t: nat, goal: Goal, c: nat)
    requires Inv(s) && t in s.threads && s.threads[t] == Deleting(goal, c)
    ensures Delete(s, t, goal, c).Ok? && Inv(Delete(s, t, goal, c).s)
  {
    hide Holders, Proper, Spending, Counts, Claims, PendingRef, DoomedRef, ClaimedRef, OwnsSpent, Owned, Ordered,
         NoDangling;
    Unreferenced(s, t, goal, c);
    var a := match s.clips[c].child case Null => Finishing(goal) case To(d) => Releasing(goal, d);
    ReleasingFacts(s.clips, s.handles, t, goal, c);
    if s.clips[c].child.To? {
      ReleasingFacts(s.clips, s.handles, t, goal, s.clips[c].child.clip);
    }
    HoldersRemoved(s.clips, ChildRef, c);
    Balanced(s.clips, s.handles, s.threads, s.clips - {c}, s.handles, t, a);
    DeleteKeeps(s, t, goal, c, a);
  }

  lemma DeleteKeeps(s: State, t: nat, goal: Goal, c: nat, a: Activity)
    requires Inv(s) && t in s.threads && s.threads[t] == Deleting(goal, c) && c in s.clips
    requires a == match s.clips[c].child case Null => Finishing(goal) case To(d) => Releasing(goal, d)
    ensures NoDangling(s.clips - {c}, s.handles, s.threads[t := a])
    ensures Ordered(s.(clips := s.clips - {c}).Go(t, a))
    ensures Owned(s.clips - {c}, s.handles, s.threads[t := a])
  {
    hide Holders, Counts, Claims, OwnsCounted, OwnsSpent, SourceHeld, CountedRef;
    Unreferenced(s, t, goal, c);
    OwnedStill(s.clips, s.handles, s.threads, s.clips - {c}, t, a);
  }

  /** Nothing refers to a number that no live clip has. */
  lemma Unknown(s: State, c: nat)
    requires NoDangling(s.clips, s.handles, s.threads) && c !in s.clips
    ensures References(s.clips, s.handles, s.threads, c) == 0 == |Holders(s.threads, ClaimedRef, c)|
  {
    hide CountedRef, ChildRef, PendingRef, DoomedRef, ClaimedRef;
    assert Holders(s.handles, CountedRef, c) == {};
    assert Holders(s.clips, ChildRef, c) == {};
    assert Holders(s.threads, PendingRef, c) == {};
    assert Holders(s.threads, DoomedRef, c) == {};
    assert Holders(s.threads, ClaimedRef, c) == {};
  }

  /** A new clip is claimed by the thread that made it; its child handle takes over a pending reference. */
  lemma Allocates(s: State, t: nat, h: nat, child: Ref)
    requires Inv(s) && t in s.threads && OwnsCounted(s.handles, t, h)
    requires PendingRef(s.threads[t]) == child && DoomedRef(s.threads[t]) == ClaimedRef(s.threads[t]) == Null
    requires forall k :: !Spending(s.threads[t], k)
    ensures Inv(Allocate(s, t, h, child))
  {
    hide Holders, Spending, Counts, Claims, PendingRef, DoomedRef, ClaimedRef, Proper, OwnsCounted, Owned, References;
    var c, a := s.nextClip, Copying(h, Newborn, To(s.nextClip));
    CopyingFacts(s, t, h, c);
    Unknown(s, c);
    HoldersUpdated(s.clips, ChildRef, c, Cell(0, child));
    Balanced(s.clips, s.handles, s.threads, s.clips[c := Cell(0, child)], s.handles, t, a);
    AllocateKeeps(s, t, h, child);
  }

  lemma CopyingFacts(s: State, t: nat, h: nat, c: nat)
    requires OwnsCounted(s.handles, t, h)
    ensures PendingRef(Copying(h, Newborn, To(c))) == DoomedRef(Copying(h, Newborn, To(c))) == Null
    ensures ClaimedRef(Copying(h, Newborn, To(c))) == To(c)
  {
  }

  lemma AllocateKeeps(s: State, t: nat, h: nat, child: Ref)
    requires Inv(s) && t in s.threads && OwnsCounted(s.handles, t, h)
    requires Live(s.clips.Keys, child) && forall k :: !Spending(s.threads[t], k)
    ensures var s2 := Allocate(s, t, h, child);
            NoDangling(s2.clips, s2.handles, s2.threads) && Ordered(s2) && Owned(s2.clips, s2.handles, s2.threads)
  {
    hide Counts, Claims, OwnsSpent, PendingRef, DoomedRef, ClaimedRef, Spending, OwnsCounted, Owned, CountedRef;
    var a := Copying(h, Newborn, To(s.nextClip));
    CopyingFacts(s, t, h, s.nextClip);
    OwnedStill(s.clips, s.handles, s.threads, s.clips[s.nextClip := Cell(0, child)], t, a);
  }

  /** References that only move stay live. */
  lemma MovedLive(s: State, t: nat, h: nat, slot: Slot, a: Activity)
    requires NoDangling(s.clips, s.handles, s.threads) && t in s.threads
    requires forall c :: Is(CountedRef(slot), c) + Is(PendingRef(a), c) + Is(DoomedRef(a), c)
                         == (if h in s.handles then Is(CountedRef(s.handles[h]), c) else 0)
                            + Is(PendingRef(s.threads[t]), c) + Is(DoomedRef(s.threads[t]), c)
    ensures Live(s.clips.Keys, CountedRef(slot))
    ensures Live(s.clips.Keys, PendingRef(a)) && Live(s.clips.Keys, DoomedRef(a))
  {
    hide CountedRef, PendingRef, DoomedRef;
    forall r | r in {CountedRef(slot), PendingRef(a), DoomedRef(a)}
      ensures Live(s.clips.Keys, r)
    {
      if r.To? {
        assert Is(r, r.clip) == 1;
      }
    }
  }

  lemma WriteOwned(s: State, t: nat, h: nat, slot: Slot, a: Activity)
    requires Owned(s.clips, s.handles, s.threads) && t in s.threads
    requires slot.owner == t && (h in s.handles ==> s.handles[h].owner == t)
    requires Proper(s.clips, s.handles[h := slot], t, a)
    requires forall k :: k != h && Spending(s.threads[t], k) ==> Spending(a, k)
    requires slot.counted || Spending(a, h)
    ensures Owned(s.clips, s.handles[h := slot], s.threads[t := a])
  {
    hide Proper, Spending, CountedRef;
    OwnedKept(s.clips, s.handles, s.threads, s.clips, s.handles[h := slot], t, a);
  }

  /** The owner writes a handle: references move between the handle and the thread. */
  lemma WritesHandle(s: State, s2: State, t: nat, h: nat, slot: Slot, a: Activity)
    requires Inv(s) && t in s.threads && slot.owner == t && (h in s.handles ==> s.handles[h].owner == t)
    requires s2.clips == s.clips && s2.nextClip == s.nextClip && s2.threads == s.threads[t := a]
    requires s2.handles == s.handles[h := slot] && h < s2.nextHandle && s.nextHandle <= s2.nextHandle
    requires forall c :: Is(CountedRef(slot), c) + Is(PendingRef(a), c) + Is(DoomedRef(a), c)
                         == (if h in s.handles then Is(CountedRef(s.handles[h]), c) else 0)
                            + Is(PendingRef(s.threads[t]), c) + Is(DoomedRef(s.threads[t]), c)
    requires ClaimedRef(a) == ClaimedRef(s.threads[t])
    requires Proper(s2.clips, s2.handles, t, a)
    requires forall k :: k != h && Spending(s.threads[t], k) ==> Spending(a, k)
    requires slot.counted || Spending(a, h)
    ensures Inv(s2)
  {
    hide Holders, Proper, Spending, Counts, Claims, PendingRef, DoomedRef, ClaimedRef, References, CountedRef, Is,
         Live, Owned;
    HoldersUpdated(s.handles, CountedRef, h, slot);
    MovedLive(s, t, h, slot, a);
    Balanced(s.clips, s.handles, s.threads, s2.clips, s2.handles, t, a);
    WriteOwned(s, t, h, slot, a);
  }

  /** The pointer being copied refers to a live clip, already counted unless the thread has just made it. */
  lemma CopiedAlive(s: State, t: nat, h: nat, source: Source, c: nat)
    requires Inv(s) && t in s.threads && s.threads[t] == Copying(h, source, To(c))
    ensures OwnsCounted(s.handles, t, h) && c in s.clips
    ensures ClaimedRef(s.threads[t]) == if s.clips[c].refcnt == 0 then To(c) else Null
  {
    hide Holders, Ordered;
    assert Proper(s.clips, s.handles, t, s.threads[t]);
    match source
    case Handle(k) =>
      Holder(s.handles, CountedRef, k, c);
    case ChildOf(k) =>
      assert CountedRef(s.handles[k]) == s.handles[k].p;
      Holder(s.clips, ChildRef, s.handles[k].p.clip, c);
    case Newborn =>
      Holder(s.threads, ClaimedRef, t, c);
  }

  lemma BuiltOnAlive(s: State, t: nat, h: nat, k: nat, y: nat)
    requires Inv(s) && t in s.threads && s.threads[t] == Building(h, k, y)
    ensures OwnsCounted(s.handles, t, h) && y in s.clips && s.clips[y].refcnt > 0
  {
    hide Holders, Ordered;
    assert Proper(s.clips, s.handles, t, s.threads[t]);
    assert CountedRef(s.handles[k]) == To(y);
    Holder(s.handles, CountedRef, k, y);
  }

  /** The handle's old reference goes into flight; the pointer itself stays until the store. */
  lemma LetsGo(s: State, t: nat, goal: Goal)
    requires Inv(s) && t in s.threads && OwnsCounted(s.handles, t, goal.h)
    requires s.threads[t] == if goal.Store? then Added(goal.h, goal.x) else Idle
    ensures Inv(LetGo(s, t, goal))
  {
    hide Holders, Counts, Claims, NoDangling, Owned;
    var slot := s.handles[goal.h];
    match slot.p
    case Null =>
      MovesOn(s, t, Finishing(goal));
    case To(c) =>
      var s2 := LetGo(s, t, goal);
      WritesHandle(s, s2, t, goal.h, slot.(counted := false), Releasing(goal, c));
  }

  /** The pointer store, or the end of the handle. */
  lemma Finishes(s: State, t: nat, goal: Goal)
    requires Inv(s) && t in s.threads && s.threads[t] == Finishing(goal)
    ensures Inv(Finish(s, t, goal))
  {
    hide Holders, Counts, Claims, NoDangling;
    assert Proper(s.clips, s.handles, t, s.threads[t]);
    match goal
    case Store(h, x) =>
      WritesHandle(s, Finish(s, t, goal), t, h, Slot(x, t, true), Idle);
    case Discard(h) =>
      DropsHandle(s, t, h);
  }

  lemma IdleProper(clips: map<nat, Cell>, handles: map<nat, Slot>, t: nat)
    ensures Proper(clips, handles, t, Idle)
  {
  }

  lemma DropsHandle(s: State, t: nat, h: nat)
    requires Inv(s) && t in s.threads && s.threads[t] == Finishing(Discard(h)) && OwnsSpent(s.handles, t, h)
    ensures Inv(s.(handles := s.handles - {h}).Go(t, Idle))
  {
    hide Holders, Counts, Claims, References, Proper;
    var handles := s.handles - {h};
    HoldersRemoved(s.handles, CountedRef, h);
    Balanced(s.clips, s.handles, s.threads, s.clips, handles, t, Idle);
    OwnedKept(s.clips, s.handles, s.threads, s.clips, handles, t, Idle) by {
      assert Proper(s.clips, handles, t, Idle) by { IdleProper(s.clips, handles, t); }
    }
  }

  /** A handle changes hands between operations of its owner. */
  lemma Gives(s: State, t: nat, h: nat, receiver: nat)
    requires Inv(s) && t in s.threads && s.threads[t] == Idle && s.Owns(t, h) && receiver in s.threads
    ensures Inv(s.(handles := s.handles[h := s.handles[h].(owner := receiver)]))
  {
    hide Holders, Counts, Claims, SourceHeld, References;
    var slot := s.handles[h].(owner := receiver);
    assert s.threads[t := Idle] == s.threads;
    HoldersUpdated(s.handles, CountedRef, h, slot);
    Balanced(s.clips, s.handles, s.threads, s.clips, s.handles[h := slot], t, Idle);
    OwnedKept(s.clips, s.handles, s.threads, s.clips, s.handles[h := slot], t, Idle);
  }

  lemma IdleOwnsCounted(s: State, t: nat, h: nat)
    requires Inv(s) && t in s.threads && s.threads[t] == Idle && s.Owns(t, h)
    ensures OwnsCounted(s.handles, t, h) && Live(s.clips.Keys, s.handles[h].p)
  {
    hide Holders;
    assert Live(s.clips.Keys, CountedRef(s.handles[h]));
  }

  lemma Begins(s: State, t: nat, action: Action)
    requires Inv(s) && t in s.threads && s.threads[t] == Idle
    ensures Begin(s, t, action).Ok? && Inv(Begin(s, t, action).s)
  {
    hide Holders, Counts, Claims, NoDangling, Owned;
    forall h | s.Owns(t, h)
      ensures OwnsCounted(s.handles, t, h) && Live(s.clips.Keys, s.handles[h].p)
    {
      IdleOwnsCounted(s, t, h);
    }
    match action
    case Declare =>
      WritesHandle(s, Begin(s, t, action).s.Go(t, Idle), t, s.nextHandle, Slot(Null, t, true), Idle);
      assert s.threads[t := Idle] == s.threads;
    case Assign(h, Handle(k)) =>
      if s.Owns(t, h) && s.Owns(t, k) {
        MovesOn(s, t, Copying(h, Handle(k), s.handles[k].p));
      }
    case Assign(h, ChildOf(k)) =>
      if s.Owns(t, h) && s.Owns(t, k) && s.handles[k].p.To? {
        MovesOn(s, t, Copying(h, ChildOf(k), s.clips[s.handles[k].p.clip].child));
      }
    case NewSource(h) =>
      if s.Owns(t, h) {
        Allocates(s, t, h, Null);
      }
    case NewFilter(h, k) =>
      if s.Owns(t, h) && s.Owns(t, k) && s.handles[k].p.To? {
        MovesOn(s, t, Building(h, k, s.handles[k].p.clip));
      }
    case Destroy(h) =>
      if s.Owns(t, h) {
        LetsGo(s, t, Discard(h));
      }
    case Give(h, receiver) =>
      if s.Owns(t, h) && receiver in s.threads {
        Gives(s, t, h, receiver);
      }
    case _ =>
  }

  /** Every step of every thread keeps the invariant and touches only live clips. */
  lemma StepSafe(s: State, e: Event)
    requires Inv(s)
    ensures Step(s, e).Ok? && Inv(Step(s, e).s)
  {
    hide Holders, Counts, Claims, NoDangling, Ordered, References, Begin, Allocate, LetGo, Add, Delete, Finish;
    if e.t in s.threads {
      var t := e.t;
      assert Proper(s.clips, s.handles, t, s.threads[t]);
      match s.threads[t]
      case Idle => Begins(s, t, e.action);
      case Copying(h, source, Null) => MovesOn(s, t, Added(h, Null));
      case Copying(h, source, To(c)) =>
        CopiedAlive(s, t, h, source, c);
        Increments(s, t, c, Added(h, To(c)));
      case Building(h, k, y) =>
        BuiltOnAlive(s, t, h, k, y);
        Increments(s, t, y, Built(h, y));
      case Built(h, y) => Allocates(s, t, h, To(y));
      case Added(h, x) => LetsGo(s, t, Store(h, x));
      case Releasing(goal, c) =>
        Doomed(s, t, goal, c);
        Decrements(s, t, goal, c, if s.clips[c].refcnt == 1 then Deleting(goal, c) else Finishing(goal));
      case Deleting(goal, c) => Deletes(s, t, goal, c);
      case Finishing(goal) => Finishes(s, t, goal);
    }
  }

  lemma InitialSafe(threads: set<nat>)
    ensures Inv(Initial(threads))
    ensures Initial(threads).clips == map[] && Initial(threads).handles == map[]
    ensures Initial(threads).threads.Keys == threads
    ensures forall t :: t in threads ==> Initial(threads).threads[t] == Idle
  {
  }

  lemma {:induction false} RunSafe(s: State, schedule: seq<Event>)
    requires Inv(s)
    ensures Run(s, schedule).Ok? && Inv(Run(s, schedule).s)
    decreases |schedule|
  {
    hide Inv, Step;
    if schedule != [] {
      StepSafe(s, schedule[0]);
      RunSafe(Step(s, schedule[0]).s, schedule[1..]);
    }
  }

  ghost predicate Reachable(s: State) {
    exists threads: set<nat>, schedule: seq<Event> :: Run(Initial(threads), schedule) == Ok(s)
  }

  /** No interleaving ever touches a deleted clip or deletes a clip twice. */
  lemma NoInterleavingFaults(threads: set<nat>, schedule: seq<Event>)
    ensures Run(Initial(threads), schedule).Ok?
  {
    InitialSafe(threads);
    RunSafe(Initial(threads), schedule);
  }

  lemma ReachableInv(s: State)
    requires Reachable(s)
    ensures Inv(s)
  {
    var threads, schedule :| Run(Initial(threads), schedule) == Ok(s);
    InitialSafe(threads);
    RunSafe(Initial(threads), schedule);
  }

  lemma ZeroClaimedOnce(s: State, c: nat)
    requires Inv(s) && c in s.clips
    ensures s.clips[c].refcnt == 0 <==> exists t :: t in s.threads && ClaimedRef(s.threads[t]) == To(c)
    ensures forall t, u | t in s.threads && u in s.threads ::
              ClaimedRef(s.threads[t]) == To(c) == ClaimedRef(s.threads[u]) ==> t == u
  {
    hide Counts, NoDangling, Ordered, Owned, ClaimedRef;
    var claimants := Holders(s.threads, ClaimedRef, c);
    if claimants != {} {
      var t :| t in claimants;
      assert |claimants - {t}| == |claimants| - 1;
      assert forall u :: u in s.threads && ClaimedRef(s.threads[u]) == To(c) ==> u in claimants;
    } else {
      assert forall u :: u in s.threads && ClaimedRef(s.threads[u]) == To(c) ==> u in claimants;
    }
  }

  /** In every reachable state a count is the number of handles that still account for the clip, of
      filters above it and of references in flight, and the count is zero exactly while one thread alone
      is about to count the clip for the first time or to delete it. */
  lemma CountIsReferences(s: State, c: nat)
    requires Reachable(s) && c in s.clips
    ensures s.clips[c].refcnt
         == |set h | h in s.handles && s.handles[h].counted && s.handles[h].p == To(c)|
          + |set d | d in s.clips && s.clips[d].child == To(c)|
          + |set t | t in s.threads && PendingRef(s.threads[t]) == To(c)|
          + |set t | t in s.threads && s.threads[t].Releasing? && s.threads[t].c == c|
    ensures s.clips[c].refcnt == 0 <==> exists t :: t in s.threads && ClaimedRef(s.threads[t]) == To(c)
    ensures forall t, u | t in s.threads && u in s.threads ::
              ClaimedRef(s.threads[t]) == To(c) == ClaimedRef(s.threads[u]) ==> t == u
  {
    hide Reachable, Holders, References;
    ReachableInv(s);
    ZeroClaimedOnce(s, c);
    ReferencesAre(s, c);
  }

  lemma ReferencesAre(s: State, c: nat)
    ensures References(s.clips, s.handles, s.threads, c)
         == |set h | h in s.handles && s.handles[h].counted && s.handles[h].p == To(c)|
          + |set d | d in s.clips && s.clips[d].child == To(c)|
          + |set t | t in s.threads && PendingRef(s.threads[t]) == To(c)|
          + |set t | t in s.threads && s.threads[t].Releasing? && s.threads[t].c == c|
  {
    hide PendingRef;
    assert Holders(s.handles, CountedRef, c)
        == set h | h in s.handles && s.handles[h].counted && s.handles[h].p == To(c);
    assert Holders(s.clips, ChildRef, c) == set d | d in s.clips && s.clips[d].child == To(c);
    assert Holders(s.threads, PendingRef, c) == set t | t in s.threads && PendingRef(s.threads[t]) == To(c);
    assert Holders(s.threads, DoomedRef, c)
        == set t | t in s.threads && s.threads[t].Releasing? && s.threads[t].c == c;
  }

  /** What is in flight, and who claims a clip, by what the thread is about to do. */
  lemma InFlight(a: Activity, c: nat)
    ensures PendingRef(a) == To(c) <==>
              || (a.Added? && a.x == To(c)) || (a.Built? && a.y == c)
              || ((a.Releasing? || a.Deleting? || a.Finishing?) && a.goal.Store? && a.goal.x == To(c))
    ensures ClaimedRef(a) == To(c) <==>
              (a.Copying? && a.source.Newborn? && a.x == To(c)) || (a.Deleting? && a.c == c)
  {
  }

  /** Exactly one thread learns that the count has reached zero: the thread whose decrement did it. */
  lemma OneDeleter(s: State, e: Event, c: nat)
    requires Reachable(s) && e.t in s.threads
    requires s.threads[e.t].Releasing? && s.threads[e.t].c == c && c in s.clips && s.clips[c].refcnt == 1
    ensures var s2 := Step(s, e).s;
            forall t :: t in s2.threads && s2.threads[t].Deleting? && s2.threads[t].c == c <==> t == e.t
  {
    hide Reachable, Holders, References;
    ReachableInv(s);
    ZeroClaimedOnce(s, c);
    forall t | t in s.threads
      ensures s.threads[t].Deleting? ==> s.threads[t].c != c
    {
      assert ClaimedRef(s.threads[t]) != To(c);
    }
  }

  ghost predicate Quiescent(s: State) {
    forall t :: t in s.threads ==> s.threads[t].Idle?
  }

  /** Between operations only handles and filters hold references, and no clip lingers without one. */
  lemma QuiescentCounts(s: State, c: nat)
    requires Reachable(s) && Quiescent(s) && c in s.clips
    ensures s.clips[c].refcnt == |set h | h in s.handles && s.handles[h].p == To(c)|
                               + |set d | d in s.clips && s.clips[d].child == To(c)|
    ensures s.clips[c].refcnt > 0
  {
    hide Reachable;
    ReachableInv(s);
    ZeroClaimedOnce(s, c);
    assert Holders(s.threads, PendingRef, c) == {} && Holders(s.threads, DoomedRef, c) == {};
    assert forall h :: h in s.handles ==> CountedRef(s.handles[h]) == s.handles[h].p;
    assert Holders(s.handles, CountedRef, c) == set h | h in s.handles && s.handles[h].p == To(c);
    assert Holders(s.clips, ChildRef, c) == set d | d in s.clips && s.clips[d].child == To(c);
  }

  /** Every surviving clip is under some handle, so once the last handle is gone no clip is left. */
  lemma {:induction false} NothingOutlivesTheHandles(s: State, c: nat)
    requires Reachable(s) && Quiescent(s) && s.handles == map[]
    ensures c !in s.clips
    decreases s.nextClip - c
  {
    hide Reachable, Quiescent;
    if c in s.clips {
      ReachableInv(s);
      QuiescentCounts(s, c);
      var above := set d | d in s.clips && s.clips[d].child == To(c);
      var d :| d in above;
      NothingOutlivesTheHandles(s, d);
    }
  }

  /** The steps that a thread still has to take at most, by the numbers of the clips it may release. */
  function Remaining(s: State, a: Activity): nat {
    match a
    case Idle => 0
    case Building(h, _, _) => 6 + PathBelow(s, h)
    case Built(h, _) => 5 + PathBelow(s, h)
    case Copying(h, _, _) => 4 + PathBelow(s, h)
    case Added(h, _) => 3 + PathBelow(s, h)
    case Releasing(_, c) => 3 + 2 * c
    case Deleting(_, c) => 2 + 2 * c
    case Finishing(_) => 1
  }

  function PathBelow(s: State, h: nat): nat {
    if h in s.handles && s.handles[h].p.To? then 1 + 2 * s.handles[h].p.clip else 0
  }

  /** No operation is longer than twice the number of clips ever made, but for a few steps. */
  lemma RemainingBound(s: State, t: nat)
    requires Inv(s) && t in s.threads
    ensures Remaining(s, s.threads[t]) <= 2 * s.nextClip + 6
  {
    hide Counts, Claims, Holders;
    assert Proper(s.clips, s.handles, t, s.threads[t]);
    assert forall h :: h in s.handles ==> Live(s.clips.Keys, CountedRef(s.handles[h]));
    assert Live(s.clips.Keys, DoomedRef(s.threads[t])) && Live(s.clips.Keys, ClaimedRef(s.threads[t]));
  }

  lemma OthersUndisturbedByBegin(s: State, t: nat, action: Action)
    requires Ordered(s) && t in s.threads && Begin(s, t, action).Ok?
    ensures var s2 := Begin(s, t, action).s;
            && s2.threads.Keys == s.threads.Keys
            && (forall u :: u in s.threads && u != t ==> s2.threads[u] == s.threads[u])
            && (forall h :: h in s.handles && s.handles[h].owner != t ==>
                  h in s2.handles && s2.handles[h] == s.handles[h])
  {
  }

  /** A step changes only the stepping thread and the handles it owns. */
  lemma OthersUndisturbed(s: State, e: Event)
    requires Inv(s) && e.t in s.threads && Step(s, e).Ok?
    ensures var s2 := Step(s, e).s;
            && s2.threads.Keys == s.threads.Keys
            && (forall u :: u in s.threads && u != e.t ==> s2.threads[u] == s.threads[u])
            && (forall h :: h in s.handles && s.handles[h].owner != e.t ==>
                  h in s2.handles && s2.handles[h] == s.handles[h])
  {
    hide Counts, Claims, NoDangling, SourceHeld, Spending, Holders, Begin;
    assert Proper(s.clips, s.handles, e.t, s.threads[e.t]);
    match s.threads[e.t]
    case Idle => OthersUndisturbedByBegin(s, e.t, e.action);
    case Added(_, _) =>
    case Finishing(_) =>
    case _ => assert Step(s, e).s.handles == s.handles;
  }

  /** Each step of a busy thread brings its operation nearer to its end. */
  lemma OwnStep(s: State, e: Event)
    requires Inv(s) && e.t in s.threads && Step(s, e).Ok? && !s.threads[e.t].Idle?
    ensures var s2 := Step(s, e).s;
            e.t in s2.threads && Remaining(s2, s2.threads[e.t]) < Remaining(s, s.threads[e.t])
  {
    hide Counts, Claims, NoDangling, SourceHeld;
    assert Proper(s.clips, s.handles, e.t, s.threads[e.t]);
  }

  /** A step of another thread does not. */
  lemma OtherStep(s: State, e: Event, u: nat)
    requires Inv(s) && e.t in s.threads && Step(s, e).Ok? && u in s.threads && u != e.t
    ensures var s2 := Step(s, e).s;
            u in s2.threads && Remaining(s2, s2.threads[u]) == Remaining(s, s.threads[u])
  {
    hide Counts, Claims, NoDangling, Ordered, Step, SourceHeld;
    OthersUndisturbed(s, e);
    assert Proper(s.clips, s.handles, u, s.threads[u]);
  }

  function Turns(schedule: seq<Event>, t: nat): nat {
    if schedule == [] then 0 else (if schedule[0].t == t then 1 else 0) + Turns(schedule[1..], t)
  }

  /** Wait freedom: whatever the other threads do, an operation, its delete cascade included, is over as
      soon as its thread has had the given number of turns. */
  lemma {:induction false} OperationsEnd(s: State, t: nat, schedule: seq<Event>) returns (i: nat)
    requires Inv(s) && t in s.threads && Turns(schedule, t) >= Remaining(s, s.threads[t])
    ensures i <= |schedule| && Run(s, schedule[..i]).Ok?
    ensures t in Run(s, schedule[..i]).s.threads && Run(s, schedule[..i]).s.threads[t].Idle?
    ensures forall j | 0 <= j < i ::
              var o := Run(s, schedule[..j]); o.Ok? && t in o.s.threads && !o.s.threads[t].Idle?
    decreases |schedule|
  {
    hide Inv, Step;
    i := 0;
    if !s.threads[t].Idle? {
      var e := schedule[0];
      StepSafe(s, e);
      var s2 := Step(s, e).s;
      if e.t == t {
        OwnStep(s, e);
      } else if e.t in s.threads {
        OtherStep(s, e, t);
      } else {
        Absent(s, e);
      }
      var j := OperationsEnd(s2, t, schedule[1..]);
      i := j + 1;
      assert schedule[..i][0] == e && schedule[..i][1..] == schedule[1..][..j];
      forall k | 0 <= k < i
        ensures var o := Run(s, schedule[..k]); o.Ok? && t in o.s.threads && !o.s.threads[t].Idle?
      {
        if k > 0 {
          assert schedule[..k][0] == e && schedule[..k][1..] == schedule[1..][..k - 1];
        }
      }
    }
  }

  lemma Absent(s: State, e: Event)
    requires e.t !in s.threads
    ensures Step(s, e) == Ok(s)
  {
  }
}
