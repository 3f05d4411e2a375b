/** The reference-counted latch (common/latch.h, common/latch.cpp) as interleaved atomic steps.

    A cycle starts with `Init`, which stores a closure and hands out one handle.
    Handles are copied, moved, dropped and destroyed on any thread. The
    decrement that reaches zero, taking the closure out, and the end of its run
    are separate steps, and any other step may come between them. */
module Latch {

  // A handle object: empty, counted by the latch, or past its decrement but not yet cleared.
  datatype Handle = Null | Held | Releasing

  // A stored closure is named by the cycle whose Init provided it; Empty does nothing.
  datatype Closure = Empty | OnZero(cycle: nat)

  datatype State = State(
    count: int,                 // count_
    onZero: Closure,            // on_zero_
    handles: map<nat, Handle>,
    storing: bool,              // an Init has stored its closure but not yet made its handle
    deciders: set<nat>,         // handles whose decrement saw 1 and that have not taken the closure yet
    running: map<nat, Closure>, // handles whose release is running the closure it took out
    cycle: nat,                 // Inits so far
    ran: seq<Closure>)          // closures taken out to run, in order

  const START := State(0, Empty, map[], false, {}, map[], 0, [])

  datatype Step =
    | InitStore              // CARBON_CHECK(count_ == 0); on_zero_ = std::move(on_zero)
    | InitHandle(h: nat)     // Handle(this), which increments
    | Copy(from: nat, h: nat)
    | Move(from: nat, h: nat)
    | Release(h: nat)        // destructor or Drop: fetch_sub, for a handle that has a latch
    | DestroyNull(h: nat)    // destructor of an empty handle
    | TakeClosure(h: nat)    // std::exchange(on_zero_, [] {})
    | Finish(h: nat)         // the closure has run; the handle is gone

  function HeldHandles(s: State): set<nat> {
    set h | h in s.handles && s.handles[h] == Held
  }

  // All handles are gone and nobody is about to run the closure: the latch is satisfied or unused.
  predicate Quiet(s: State) {
    HeldHandles(s) == {} && s.deciders == {} && !s.storing
  }

  // --- The shared object ---

  class LatchObject {
    var count: int
    var onZero: Closure

    constructor ()
      ensures count == 0 && onZero == Empty
    {
      count, onZero := 0, Empty;
    }

    // fetch_add(1)
    method Inc()
      modifies this`count
      ensures count == old(count) + 1
    {
      count := count + 1;
    }

    // fetch_sub(1): says whether this decrement is the last.
    method FetchSub() returns (last: bool)
      requires count > 0
      modifies this`count
      ensures count == old(count) - 1 && last == (count == 0)
    {
      var previous := count;
      count := count - 1;
      last := previous == 1;
    }

    method ExchangeOnZero() returns (c: Closure)
      modifies this`onZero
      ensures c == old(onZero) && onZero == Empty
    {
      c := onZero;
      onZero := Empty;
    }

    method StoreOnZero(c: Closure)
      requires count == 0
      modifies this`onZero
      ensures onZero == c
    {
      onZero := c;
    }
  }

  // --- The steps ---

  // What the language and the documented contract demand of the caller of a step: a copied, moved
  // or destroyed handle exists; only a handle with a latch is dropped; Init waits for the latch to
  // be satisfied.
  predicate CallerMay(s: State, step: Step) {
    match step
    case InitStore => Quiet(s)
    case InitHandle(h) => s.storing && h !in s.handles
    case Copy(from, h) => from in s.handles && s.handles[from] != Releasing && h !in s.handles
    case Move(from, h) => from in s.handles && s.handles[from] != Releasing && h !in s.handles
    case Release(h) => h in s.handles && s.handles[h] == Held
    case DestroyNull(h) => h in s.handles && s.handles[h] == Null
    case TakeClosure(h) => h in s.deciders
    case Finish(h) => h in s.running
  }

  // The checks in the source: the count is zero at Init and positive before a decrement.
  predicate ChecksPass(s: State, step: Step) {
    match step
    case InitStore => s.count == 0
    case Release(_) => s.count > 0
    case _ => true
  }

  function Next(s: State, step: Step): State {
    match step
    case InitStore =>
      s.(onZero := OnZero(s.cycle + 1), storing := true, cycle := s.cycle + 1)
    case InitHandle(h) =>
      s.(count := s.count + 1, handles := s.handles[h := Held], storing := false)
    case Copy(from, h) =>
      var c := if from in s.handles then s.handles[from] else Null;
      s.(count := s.count + (if c == Held then 1 else 0), handles := s.handles[h := c])
    case Move(from, h) =>
      var c := if from in s.handles then s.handles[from] else Null;
      s.(handles := s.handles[h := c][from := Null])
    case Release(h) =>
      if s.count == 1 then
        s.(count := 0, handles := s.handles[h := Releasing], deciders := s.deciders + {h})
      else
        s.(count := s.count - 1, handles := s.handles - {h})
    case DestroyNull(h) =>
      s.(handles := s.handles - {h})
    case TakeClosure(h) =>
      s.(onZero := Empty, deciders := s.deciders - {h}, running := s.running[h := s.onZero], ran := s.ran + [s.onZero])
    case Finish(h) =>
      s.(running := s.running - {h}, handles := s.handles - {h})
  }

  // A run in which every caller keeps the contract; it does not assume that the checks pass.
  predicate IsRun(s: State, steps: seq<Step>)
    decreases |steps|
  {
    steps == [] || (CallerMay(s, steps[0]) && IsRun(Next(s, steps[0]), steps[1..]))
  }

  function After(s: State, steps: seq<Step>): State
    decreases |steps|
  {
    if steps == [] then s else After(Next(s, steps[0]), steps[1..])
  }

  // --- What every run keeps ---

  // The closures of the first n cycles, in order.
  function FirstCycles(n: nat): (r: seq<Closure>)
    ensures |r| == n && forall i :: 0 <= i < n ==> r[i] == OnZero(i + 1)
  {
    seq(n, i requires 0 <= i < n => OnZero(i + 1))
  }

  ghost predicate Inv(s: State) {
    // the count is the number of handles that hold the latch
    && s.count == |HeldHandles(s)|
    // at most one release is deciding, and then no handle is left
    && (forall h, h' :: h in s.deciders && h' in s.deciders ==> h == h')
    && (s.deciders != {} ==> s.count == 0 && !s.storing)
    && (s.storing ==> s.count == 0)
    && (forall h :: h in s.deciders || h in s.running ==> h in s.handles && s.handles[h] == Releasing)
    && s.deciders !! s.running.Keys
    // between cycles nothing is stored and every closure has been taken out, once and in order;
    // within a cycle its own closure is stored and the earlier ones have been taken out
    && (Quiet(s) ==> s.onZero == Empty && s.ran == FirstCycles(s.cycle))
    && (!Quiet(s) ==> s.cycle > 0 && s.onZero == OnZero(s.cycle) && s.ran == FirstCycles(s.cycle - 1))
  }

  lemma StartInv()
    ensures Inv(START)
  {}

  lemma HeldAfter(s: State, step: Step)
    requires CallerMay(s, step)
    ensures HeldHandles(Next(s, step)) ==
              match step
              case InitHandle(h) => HeldHandles(s) + {h}
              case Copy(from, h) => if s.handles[from] == Held then HeldHandles(s) + {h} else HeldHandles(s)
              case Move(from, h) => if s.handles[from] == Held then HeldHandles(s) - {from} + {h} else HeldHandles(s)
              case Release(h) => HeldHandles(s) - {h}
              case DestroyNull(_) => HeldHandles(s)
              case Finish(h) => HeldHandles(s) - {h}
              case _ => HeldHandles(s)
  {}

  lemma AddSize(a: set<nat>, h: nat)
    ensures h !in a ==> |a + {h}| == |a| + 1
    ensures h in a ==> |a - {h}| == |a| - 1
  {}

  lemma NotHeld(s: State, h: nat)
    requires h !in s.handles || s.handles[h] != Held
    ensures h !in HeldHandles(s)
  {}

  lemma IsHeld(s: State, h: nat)
    requires h in s.handles && s.handles[h] == Held
    ensures h in HeldHandles(s)
  {}

  lemma InitKeepsInv(s: State, step: Step)
    requires Inv(s) && CallerMay(s, step) && (step.InitStore? || step.InitHandle?)
    ensures ChecksPass(s, step) && Inv(Next(s, step))
  {
    hide HeldHandles;
    HeldAfter(s, step);
    if step.InitHandle? {
      NotHeld(s, step.h);
      AddSize(HeldHandles(s), step.h);
    }
  }

  lemma CopyKeepsInv(s: State, from: nat, h: nat)
    requires Inv(s) && CallerMay(s, Copy(from, h))
    ensures Inv(Next(s, Copy(from, h)))
  {
    hide HeldHandles;
    HeldAfter(s, Copy(from, h));
    NotHeld(s, h);
    AddSize(HeldHandles(s), h);
    if s.handles[from] == Held { IsHeld(s, from); }
  }

  lemma SwapSize(a: set<nat>, x: nat, y: nat)
    requires x in a && y !in a
    ensures |a - {x} + {y}| == |a| && a - {x} + {y} != {} && a != {}
  {}

  lemma MoveKeepsInv(s: State, from: nat, h: nat)
    requires Inv(s) && CallerMay(s, Move(from, h))
    ensures Inv(Next(s, Move(from, h)))
  {
    hide HeldHandles, FirstCycles;
    HeldAfter(s, Move(from, h));
    NotHeld(s, h);
    var s' := Next(s, Move(from, h));
    assert forall x :: x in s.deciders || x in s.running ==> x != from && x != h;
    if s.handles[from] == Held {
      IsHeld(s, from);
      SwapSize(HeldHandles(s), from, h);
    }
    assert Quiet(s') <==> Quiet(s);
  }

  lemma ReleaseKeepsInv(s: State, h: nat)
    requires Inv(s) && CallerMay(s, Release(h))
    ensures s.count > 0 && Inv(Next(s, Release(h)))
  {
    hide HeldHandles;
    HeldAfter(s, Release(h));
    IsHeld(s, h);
    AddSize(HeldHandles(s), h);
    if s.count == 1 { EmptySet(HeldHandles(s) - {h}); }
  }

  lemma EmptySet(a: set<nat>)
    requires |a| == 0
    ensures a == {}
  {}

  lemma EndKeepsInv(s: State, step: Step)
    requires Inv(s) && CallerMay(s, step) && (step.DestroyNull? || step.TakeClosure? || step.Finish?)
    ensures Inv(Next(s, step))
  {
    hide Inv, Next;
    match step {
      case DestroyNull(h) => DestroyKeepsInv(s, h);
      case Finish(h) => FinishKeepsInv(s, h);
      case TakeClosure(h) => TakeKeepsInv(s, h);
    }
  }

  lemma DestroyKeepsInv(s: State, h: nat)
    requires Inv(s) && CallerMay(s, DestroyNull(h))
    ensures Inv(Next(s, DestroyNull(h)))
  {
    hide HeldHandles, FirstCycles;
    HeldAfter(s, DestroyNull(h));
  }

  lemma FinishKeepsInv(s: State, h: nat)
    requires Inv(s) && CallerMay(s, Finish(h))
    ensures Inv(Next(s, Finish(h)))
  {
    hide HeldHandles, FirstCycles;
    HeldAfter(s, Finish(h));
    NotHeld(s, h);
    assert HeldHandles(s) - {h} == HeldHandles(s);
  }

  lemma TakeKeepsInv(s: State, h: nat)
    requires Inv(s) && CallerMay(s, TakeClosure(h))
    ensures Inv(Next(s, TakeClosure(h)))
  {
    hide HeldHandles;
    HeldAfter(s, TakeClosure(h));
    assert s.deciders == {h};
    if HeldHandles(s) != {} { NonEmptySet(HeldHandles(s)); }
    assert FirstCycles(s.cycle) == FirstCycles(s.cycle - 1) + [OnZero(s.cycle)];
  }

  lemma NonEmptySet(a: set<nat>)
    requires a != {}
    ensures |a| > 0
  {}

  // Every step of a caller that keeps the contract passes the source's checks and keeps the invariant.
  lemma StepKeepsInv(s: State, step: Step)
    requires Inv(s) && CallerMay(s, step)
    ensures ChecksPass(s, step) && Inv(Next(s, step))
  {
    hide HeldHandles, Inv, Next;
    match step {
      case InitStore => InitKeepsInv(s, step);
      case InitHandle(_) => InitKeepsInv(s, step);
      case Copy(from, h) => CopyKeepsInv(s, from, h);
      case Move(from, h) => MoveKeepsInv(s, from, h);
      case Release(h) => ReleaseKeepsInv(s, h);
      case _ => EndKeepsInv(s, step);
    }
  }

  // --- All interleavings ---

  predicate AllChecksPass(s: State, steps: seq<Step>)
    decreases |steps|
  {
    steps == [] || (ChecksPass(s, steps[0]) && AllChecksPass(Next(s, steps[0]), steps[1..]))
  }

  lemma {:induction false} RunKeepsInv(s: State, steps: seq<Step>)
    requires Inv(s) && IsRun(s, steps)
    ensures AllChecksPass(s, steps) && Inv(After(s, steps))
    decreases |steps|
  {
    hide Inv, Next, CallerMay, ChecksPass;
    if steps == [] {
    } else {
      StepKeepsInv(s, steps[0]);
      RunKeepsInv(Next(s, steps[0]), steps[1..]);
    }
  }

  // Over every run from the start: no check fails, the count is the number of handles that hold the
  // latch, closures are taken out once each and in the order of their cycles, and when the latch is
  // quiet the closure of every cycle has been taken out.
  lemma EveryRun(steps: seq<Step>)
    requires IsRun(START, steps)
    ensures AllChecksPass(START, steps)
    ensures var s := After(START, steps);
            && s.count == |HeldHandles(s)|
            && s.ran == FirstCycles(|s.ran|)
            && |s.ran| == (if Quiet(s) then s.cycle else s.cycle - 1)
  {
    StartInv();
    RunKeepsInv(START, steps);
  }

  // A closure is taken out only when no handle of its cycle is left, and it is the stored one.
  lemma ClosureAfterLastHandle(steps: seq<Step>, h: nat)
    requires IsRun(START, steps) && CallerMay(After(START, steps), TakeClosure(h))
    ensures var s := After(START, steps);
            HeldHandles(s) == {} && s.onZero == OnZero(s.cycle) && s.deciders == {h}
  {
    StartInv();
    RunKeepsInv(START, steps);
    EmptySet(HeldHandles(After(START, steps)));
  }

  // --- Exactly one decrement is the last ---

  function LastReleases(s: State, steps: seq<Step>): nat
    decreases |steps|
  {
    if steps == [] then 0
    else (if steps[0].Release? && s.count == 1 then 1 else 0) + LastReleases(Next(s, steps[0]), steps[1..])
  }

  lemma StepCountsLast(s: State, step: Step)
    requires Inv(s) && CallerMay(s, step)
    ensures |Next(s, step).ran| + |Next(s, step).deciders|
         == |s.ran| + |s.deciders| + (if step.Release? && s.count == 1 then 1 else 0)
  {}

  lemma {:induction false} RunCountsLast(s: State, steps: seq<Step>)
    requires Inv(s) && IsRun(s, steps)
    ensures |After(s, steps).ran| + |After(s, steps).deciders| == |s.ran| + |s.deciders| + LastReleases(s, steps)
    decreases |steps|
  {
    hide Inv, Next, CallerMay;
    if steps == [] {
    } else {
      StepCountsLast(s, steps[0]);
      StepKeepsInv(s, steps[0]);
      RunCountsLast(Next(s, steps[0]), steps[1..]);
    }
  }

  // Each cycle whose closure was taken out had one decrement that saw the last handle, no more;
  // when the latch is quiet that is one per Init.
  lemma OneLastDecrementPerCycle(steps: seq<Step>)
    requires IsRun(START, steps) && Quiet(After(START, steps))
    ensures LastReleases(START, steps) == After(START, steps).cycle
  {
    EveryRun(steps);
    StartInv();
    RunCountsLast(START, steps);
  }

  // --- Initialising again ---

  lemma ThreeSteps(s: State, a: Step, b: Step, c: Step)
    requires Inv(s) && CallerMay(s, a)
    requires CallerMay(Next(s, a), b) && CallerMay(Next(Next(s, a), b), c)
    ensures IsRun(s, [a, b, c]) && After(s, [a, b, c]) == Next(Next(Next(s, a), b), c)
  {
    hide Next, CallerMay, Inv;
    FollowThree(s, a, b, c);
    assert [a, b, c][1..] == [b, c] && [b, c][1..] == [c] && [c][1..] == [];
    assert IsRun(Next(Next(s, a), b), [c]) && IsRun(Next(s, a), [b, c]);
  }

  // Once the closure is taken out the latch may be initialised again, also by the running closure.
  lemma ReinitInsideClosure(s: State, h: nat, h': nat)
    requires Inv(s) && CallerMay(s, TakeClosure(h)) && h' !in s.handles
    ensures var steps := [TakeClosure(h), InitStore, InitHandle(h')];
            && IsRun(s, steps) && AllChecksPass(s, steps) && Inv(After(s, steps))
            && h in After(s, steps).running && After(s, steps).running[h] == OnZero(s.cycle)
            && After(s, steps).onZero == OnZero(s.cycle + 1)
  {
    hide IsRun, After, AllChecksPass, HeldHandles, FirstCycles;
    var s1 := Next(s, TakeClosure(h));
    assert s.deciders == {h};
    HeldAfter(s, TakeClosure(h));
    EmptySet(HeldHandles(s));
    assert Quiet(s1);
    ThreeSteps(s, TakeClosure(h), InitStore, InitHandle(h'));
    RunKeepsInv(s, [TakeClosure(h), InitStore, InitHandle(h')]);
  }

  // A closure that is neither stored nor taken out, of a cycle that is over: nobody holds it any more.
  predicate Lost(s: State, cycle: nat) {
    cycle <= s.cycle && s.onZero != OnZero(cycle) && OnZero(cycle) !in s.ran
  }

  // It stays so whatever happens next, by callers who keep the contract or not.
  lemma {:induction false} LostForever(s: State, cycle: nat, steps: seq<Step>)
    requires Lost(s, cycle)
    ensures Lost(After(s, steps), cycle)
    decreases |steps|
  {
    if steps == [] {
    } else {
      LostForever(Next(s, steps[0]), cycle, steps[1..]);
    }
  }

  // The check in Init passes whenever the count is zero, but it cannot see a release that has
  // decremented to zero and not yet taken the closure out. With the count at zero, the closure of
  // the cycle before is ever taken out, already or by some continuation, exactly when there is no
  // such release, which is when the contract allows the Init.
  lemma InitIsSafeIff(s: State)
    requires Inv(s) && ChecksPass(s, InitStore) && !s.storing && s.cycle > 0
    ensures CallerMay(s, InitStore) <==> s.deciders == {}
    ensures s.deciders == {} <==> exists steps :: OnZero(s.cycle) in After(Next(s, InitStore), steps).ran
  {
    EmptySet(HeldHandles(s));
    var s' := Next(s, InitStore);
    if s.deciders == {} {
      assert OnZero(s.cycle) == s.ran[s.cycle - 1];
      assert OnZero(s.cycle) in After(s', []).ran;
    } else {
      forall steps ensures OnZero(s.cycle) !in After(s', steps).ran {
        LostForever(s', s.cycle, steps);
      }
    }
  }

  // After an Init the contract allows, every run keeps the promise: each earlier closure has been
  // taken out, and none is taken out while a handle of its cycle is held.
  lemma SafeInitRuns(s: State, steps: seq<Step>)
    requires Inv(s) && CallerMay(s, InitStore) && IsRun(Next(s, InitStore), steps)
    ensures AllChecksPass(Next(s, InitStore), steps)
    ensures forall c :: 1 <= c <= s.cycle ==> OnZero(c) in After(Next(s, InitStore), steps).ran
    ensures forall h :: h in After(Next(s, InitStore), steps).deciders ==> HeldHandles(After(Next(s, InitStore), steps)) == {}
  {
    StepKeepsInv(s, InitStore);
    RunKeepsInv(Next(s, InitStore), steps);
    CycleGrows(Next(s, InitStore), steps);
    EarlierClosuresRan(After(Next(s, InitStore), steps));
  }

  lemma {:induction false} CycleGrows(s: State, steps: seq<Step>)
    ensures After(s, steps).cycle >= s.cycle
    decreases |steps|
  {
    if steps == [] {
    } else {
      CycleGrows(Next(s, steps[0]), steps[1..]);
    }
  }

  lemma EarlierClosuresRan(s: State)
    requires Inv(s)
    ensures forall c :: 1 <= c < s.cycle ==> OnZero(c) in s.ran
    ensures s.deciders != {} ==> HeldHandles(s) == {}
  {
    forall c | 1 <= c < s.cycle ensures OnZero(c) in s.ran {
      assert s.ran[c - 1] == OnZero(c);
    }
    if s.deciders != {} { EmptySet(HeldHandles(s)); }
  }

  // With a release still deciding, an Init that passes its check loses the stored closure for good,
  // and that release takes out the new closure while the new handle is still held.
  lemma InitWhileDeciding(s: State, d: nat, h: nat)
    requires Inv(s) && ChecksPass(s, InitStore) && !s.storing && d in s.deciders && h !in s.handles
    ensures var s' := After(s, [InitStore, InitHandle(h), TakeClosure(d)]);
            && s'.ran == s.ran + [OnZero(s.cycle + 1)] && h in HeldHandles(s')
            && (forall steps :: OnZero(s.cycle) !in After(s', steps).ran)
  {
    hide HeldHandles, FirstCycles;
    var s1 := Next(s, InitStore);
    var s2 := Next(s1, InitHandle(h));
    var s3 := Next(s2, TakeClosure(d));
    FollowThree(s, InitStore, InitHandle(h), TakeClosure(d));
    NotYetRun(s);
    IsHeld(s3, h);
    forall steps ensures OnZero(s.cycle) !in After(s3, steps).ran {
      LostForever(s3, s.cycle, steps);
    }
  }

  lemma FollowThree(s: State, a: Step, b: Step, c: Step)
    ensures After(s, [a, b, c]) == Next(Next(Next(s, a), b), c)
  {
    hide Next;
    var s1 := Next(s, a);
    var s2 := Next(s1, b);
    assert [a, b, c][1..] == [b, c] && [b, c][1..] == [c] && [c][1..] == [];
    assert After(s2, [c]) == After(Next(s2, c), []) && After(s1, [b, c]) == After(s2, [c]);
  }

  lemma NotYetRun(s: State)
    requires Inv(s) && s.deciders != {}
    ensures OnZero(s.cycle) !in s.ran && s.cycle > 0
  {}

  // Such a state is reached by callers who keep the contract up to that Init.
  lemma InitTooEarly()
    ensures var before := [InitStore, InitHandle(1), Release(1)];
            var race := [InitStore, InitHandle(2), TakeClosure(1)];
            var s := After(START, before);
            && IsRun(START, before) && AllChecksPass(START, before)
            && !CallerMay(s, InitStore) && AllChecksPass(s, race)
            && After(s, race).ran == [OnZero(2)] && 2 in HeldHandles(After(s, race))
  {}

  // --- The shared object takes the same steps ---

  // The part of a step that touches the latch itself.
  method PerformShared(l: LatchObject, s: State, step: Step)
    requires l.count == s.count && l.onZero == s.onZero && CallerMay(s, step) && ChecksPass(s, step)
    modifies l
    ensures l.count == Next(s, step).count && l.onZero == Next(s, step).onZero
  {
    match step {
      case InitStore => l.StoreOnZero(OnZero(s.cycle + 1));
      case InitHandle(_) => l.Inc();
      case Copy(from, _) => if s.handles[from] == Held { l.Inc(); }
      case Release(_) => var last := l.FetchSub();
      case TakeClosure(_) => var c := l.ExchangeOnZero();
      case _ =>
    }
  }
}
