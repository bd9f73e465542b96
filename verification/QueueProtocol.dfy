/**
 The output queue with concurrent producers and its worker, as a state machine over the steps of `Push` and
 of the drain loop. The lock is an atomic mutex; the test for a full queue is made before taking it.
 */
module QueueProtocols {
  import opened OutputQueues

  /** Where a producer is inside `Push(text)`. */
  datatype Producer =
    | Idle
    | Testing(text: string)   // about to test whether the queue is full
    | Passed(text: string)    // found it not full, waiting for the lock
    | Locked(text: string)    // holds the lock, about to copy the text
    | Copied(text: string)    // about to increment the start index
    | Bumped                  // about to test the start index for wrapping
    | Done                    // about to release the lock
  {
    predicate HoldsLock() {
      Locked? || Copied? || Bumped? || Done?
    }

    /** Found room and has not used it yet. */
    predicate CountsOnRoom() {
      Passed? || Locked? || Copied?
    }
  }

  /** Where the worker is inside its drain loop. */
  datatype Worker =
    | Asleep
    | Draining                // holds the lock, about to test whether a text is waiting
    | Popping(slot: int)      // about to increment the end index
    | Popped(slot: int)       // about to test the end index for wrapping
    | Printing(slot: int)     // about to print the slot
    | Leaving                 // about to release the lock

  /** The shared memory, where each thread is, and the history of texts pushed and printed. */
  datatype State = State(slots: seq<string>, start: int, end: int, locked: bool,
                         producers: seq<Producer>, worker: Worker,
                         pushed: seq<string>, printed: seq<string>)

  function Initial(n: nat): State {
    State(seq(QUEUE_SIZE, _ => ""), 0, 0, false, seq(n, _ => Idle), Asleep, [], [])
  }

  datatype Step =
    | Call(i: nat, text: string) | Test(i: nat) | Acquire(i: nat) | Copy(i: nat)
    | BumpStart(i: nat) | WrapStart(i: nat) | Release(i: nat)
    | Wake | TestEmpty | BumpEnd | WrapEnd | Print | Sleep

  predicate Enabled(s: State, step: Step) {
    match step
    case Call(i, _) => i < |s.producers| && s.producers[i].Idle?
    case Test(i) => i < |s.producers| && s.producers[i].Testing?
    case Acquire(i) => i < |s.producers| && s.producers[i].Passed? && !s.locked
    case Copy(i) => i < |s.producers| && s.producers[i].Locked? && 0 <= s.start < |s.slots|
    case BumpStart(i) => i < |s.producers| && s.producers[i].Copied?
    case WrapStart(i) => i < |s.producers| && s.producers[i].Bumped?
    case Release(i) => i < |s.producers| && s.producers[i].Done?
    case Wake => s.worker.Asleep? && !s.locked
    case TestEmpty => s.worker.Draining?
    case BumpEnd => s.worker.Popping?
    case WrapEnd => s.worker.Popped?
    case Print => s.worker.Printing? && 0 <= s.worker.slot < |s.slots|
    case Sleep => s.worker.Leaving?
  }

  function At(s: State, i: nat, p: Producer): State
    requires i < |s.producers|
  {
    s.(producers := s.producers[i := p])
  }

  function Perform(s: State, step: Step): State
    requires Enabled(s, step)
  {
    match step
    case Call(i, text) => At(s, i, Testing(text))
    case Test(i) =>
      // a full queue makes the producer yield and test again
      if ItemTot(s.start, s.end) == QUEUE_SIZE - 1 then s else At(s, i, Passed(s.producers[i].text))
    case Acquire(i) => At(s, i, Locked(s.producers[i].text)).(locked := true)
    case Copy(i) =>
      var text := s.producers[i].text;
      At(s, i, Copied(text)).(slots := s.slots[s.start := text])
    case BumpStart(i) =>
      At(s, i, Bumped).(start := s.start + 1, pushed := s.pushed + [s.producers[i].text])
    case WrapStart(i) => At(s, i, Done).(start := if s.start >= QUEUE_SIZE then 0 else s.start)
    case Release(i) => At(s, i, Idle).(locked := false)
    case Wake => s.(worker := Draining, locked := true)
    case TestEmpty => s.(worker := if ItemTot(s.start, s.end) != 0 then Popping(s.end) else Leaving)
    case BumpEnd => s.(worker := Popped(s.worker.slot), end := s.end + 1)
    case WrapEnd =>
      s.(worker := Printing(s.worker.slot), end := if s.end >= QUEUE_SIZE then 0 else s.end)
    case Print => s.(worker := Draining, printed := s.printed + [s.slots[s.worker.slot]])
    case Sleep => s.(worker := Asleep, locked := false)
  }

  /** The steps can be taken one after the other. */
  ghost predicate Possible(s: State, steps: seq<Step>)
    decreases |steps|
  {
    steps == [] || (Enabled(s, steps[0]) && Possible(Perform(s, steps[0]), steps[1..]))
  }

  ghost function Execute(s: State, steps: seq<Step>): State
    requires Possible(s, steps)
    decreases |steps|
  {
    if steps == [] then s else Execute(Perform(s, steps[0]), steps[1..])
  }

  // ----- First in, first out -----------------------------------------------------------------------------

  /** An index, seen as if it had wrapped already. */
  function Wrapped(i: int): int {
    if i == QUEUE_SIZE then 0 else i
  }

  ghost predicate IndexesFit(s: State) {
    |s.slots| == QUEUE_SIZE && 0 <= s.start <= QUEUE_SIZE && 0 <= s.end <= QUEUE_SIZE
  }

  /** The texts still in the queue. */
  ghost function Queued(s: State): seq<string> {
    if IndexesFit(s) then Waiting(s.slots, Wrapped(s.start), Wrapped(s.end)) else []
  }

  /** The text the worker has popped and not printed yet, read from its slot. */
  ghost function InFlight(s: State): seq<string> {
    if (s.worker.Popped? || s.worker.Printing?) && 0 <= s.worker.slot < |s.slots| then [s.slots[s.worker.slot]]
    else []
  }

  /** What was printed, what is being printed and what waits are together what was pushed, in order. */
  ghost predicate Fifo(s: State) {
    && IndexesFit(s)
    && s.pushed == s.printed + InFlight(s) + Queued(s)
    && |Queued(s)| <= 255
  }

  /** A step that makes a text visible finds room for it. */
  ghost predicate HasRoom(s: State, step: Step) {
    step.BumpStart? ==> |Queued(s)| < 255
  }

  /** The invariant of runs, with any number of producers, in which every text finds room. */
  ghost predicate Inv(s: State) {
    && Fifo(s) && WorkerInv(s)
    && (forall i :: 0 <= i < |s.producers| && s.producers[i].HoldsLock() ==> s.locked && s.worker == Asleep)
    && (forall i, j :: 0 <= i < j < |s.producers| ==> !(s.producers[i].HoldsLock() && s.producers[j].HoldsLock()))
    && (s.worker != Asleep ==> s.locked)
    && (forall i :: 0 <= i < |s.producers| && s.producers[i].Copied? ==>
          s.start < QUEUE_SIZE && s.slots[s.start] == s.producers[i].text)
    && (s.start == QUEUE_SIZE ==> exists i :: 0 <= i < |s.producers| && s.producers[i].Bumped?)
  }

  ghost predicate WorkerInv(s: State) {
    && (s.end == QUEUE_SIZE ==> s.worker.Popped?)
    && (s.worker.Popping? ==> s.worker.slot == s.end && Wrapped(s.start) != s.end)
    && (s.worker.Popped? ==> IsIndex(s.worker.slot) && s.end == s.worker.slot + 1)
    && (s.worker.Printing? ==> IsIndex(s.worker.slot) && s.end == Bump(s.worker.slot))
  }

  lemma InitialInv(n: nat)
    ensures Inv(Initial(n))
  {
  }

  lemma EnterStep(s: State, step: Step)
    requires Inv(s) && Enabled(s, step) && (step.Call? || step.Test? || step.Acquire?)
    ensures Inv(Perform(s, step))
  {
    hide Waiting, ItemTot;
    if s.start == QUEUE_SIZE {
      var i :| 0 <= i < |s.producers| && s.producers[i].Bumped?;
      assert Perform(s, step).producers[i] == s.producers[i];
    }
  }

  lemma LeaveStep(s: State, step: Step)
    requires Inv(s) && Enabled(s, step) && (step.WrapStart? || step.Release?)
    ensures Inv(Perform(s, step))
  {
    hide Waiting, ItemTot;
  }

  lemma CopyStep(s: State, step: Step)
    requires Inv(s) && Enabled(s, step) && step.Copy?
    ensures Inv(Perform(s, step))
  {
    WrappedWrite(s.slots, s.start, s.end, s.producers[step.i].text);
    hide Waiting, Wrapped;
  }

  lemma WrappedWrite(slots: seq<string>, start: int, end: int, text: string)
    requires |slots| == QUEUE_SIZE && IsIndex(start) && 0 <= end <= QUEUE_SIZE
    ensures Wrapped(start) == start && IsIndex(Wrapped(end))
    ensures Waiting(slots[start := text], start, Wrapped(end)) == Waiting(slots, start, Wrapped(end))
  {
    hide Waiting;
    WaitingPush(slots, start, Wrapped(end), text);
  }

  lemma BumpStep(s: State, step: Step)
    requires Inv(s) && Enabled(s, step) && step.BumpStart? && HasRoom(s, step)
    ensures Inv(Perform(s, step))
  {
    BumpAppends(s, step);
    hide Waiting;
    assert Perform(s, step).producers[step.i].Bumped?;
  }

  lemma BumpAppends(s: State, step: Step)
    requires Fifo(s) && Enabled(s, step) && step.BumpStart? && HasRoom(s, step)
    requires s.start < QUEUE_SIZE && s.slots[s.start] == s.producers[step.i].text
    ensures Fifo(Perform(s, step))
  {
    BumpQueues(s, step);
    assert InFlight(Perform(s, step)) == InFlight(s);
    hide Queued, InFlight, Enabled;
    AppendLast(s.printed + InFlight(s), Queued(s), s.producers[step.i].text);
  }

  lemma BumpQueues(s: State, step: Step)
    requires IndexesFit(s) && Enabled(s, step) && step.BumpStart? && HasRoom(s, step)
    requires s.start < QUEUE_SIZE && s.slots[s.start] == s.producers[step.i].text
    ensures Queued(Perform(s, step)) == Queued(s) + [s.producers[step.i].text]
  {
    hide Waiting, Wrapped;
    WrappedPush(s.slots, s.start, s.end);
  }

  lemma WrappedPush(slots: seq<string>, start: int, end: int)
    requires |slots| == QUEUE_SIZE && IsIndex(start) && 0 <= end <= QUEUE_SIZE
    ensures Wrapped(start) == start && IsIndex(Wrapped(start + 1)) && IsIndex(Wrapped(end))
    ensures Waiting(slots, Wrapped(start + 1), Wrapped(end)) ==
            if |Waiting(slots, start, Wrapped(end))| < 255 then
              Waiting(slots, start, Wrapped(end)) + [slots[start]]
            else []
  {
    hide Waiting;
    WaitingPush(slots, start, Wrapped(end), slots[start]);
    assert slots[start := slots[start]] == slots;
  }

  lemma AppendLast(a: seq<string>, b: seq<string>, text: string)
    ensures a + b + [text] == a + (b + [text])
  {
  }

  /** Without room the index runs into the other one and the queue looks empty. */
  lemma BumpWithoutRoom(s: State, step: Step)
    requires Inv(s) && Enabled(s, step) && step.BumpStart? && !HasRoom(s, step)
    ensures !Fifo(Perform(s, step))
  {
  }

  lemma WorkerLockStep(s: State, step: Step)
    requires Inv(s) && Enabled(s, step) && (step.Wake? || step.TestEmpty? || step.Sleep?)
    ensures Inv(Perform(s, step))
  {
    hide Waiting, ItemTot;
    NothingWaits(s.start, s.end);
  }

  lemma NothingWaits(start: int, end: int)
    ensures IsIndex(start) && IsIndex(end) ==> (ItemTot(start, end) == 0 <==> start == end)
  {
  }

  lemma BumpEndStep(s: State, step: Step)
    requires Inv(s) && Enabled(s, step) && step.BumpEnd?
    ensures Inv(Perform(s, step))
  {
    BumpEndPops(s, step);
    hide Waiting;
  }

  lemma BumpEndPops(s: State, step: Step)
    requires Fifo(s) && WorkerInv(s) && Enabled(s, step) && step.BumpEnd?
    ensures Fifo(Perform(s, step)) && Queued(s) == InFlight(Perform(s, step)) + Queued(Perform(s, step))
  {
    hide Waiting;
    WaitingPop(s.slots, Wrapped(s.start), s.end);
    var s' := Perform(s, step);
    assert InFlight(s) == [] && InFlight(s') == [s.slots[s.end]] && Queued(s) == InFlight(s') + Queued(s');
    Regroup(s.printed, InFlight(s'), Queued(s'));
  }

  lemma Regroup(a: seq<string>, b: seq<string>, c: seq<string>)
    ensures a + [] + (b + c) == a + b + c == a + (b + c)
  {
  }

  lemma PrintStep(s: State, step: Step)
    requires Inv(s) && Enabled(s, step) && (step.WrapEnd? || step.Print?)
    ensures Inv(Perform(s, step))
  {
    hide Waiting;
    Regroup(s.printed, InFlight(s), Queued(s));
  }

  lemma AnyStep(s: State, step: Step)
    requires Inv(s) && Enabled(s, step) && HasRoom(s, step)
    ensures Inv(Perform(s, step))
  {
    hide Inv;
    if step.Copy? {
      CopyStep(s, step);
    } else if step.BumpStart? {
      BumpStep(s, step);
    } else if step.Call? || step.Test? || step.Acquire? {
      EnterStep(s, step);
    } else if step.WrapStart? || step.Release? {
      LeaveStep(s, step);
    } else if step.BumpEnd? {
      BumpEndStep(s, step);
    } else if step.WrapEnd? || step.Print? {
      PrintStep(s, step);
    } else {
      WorkerLockStep(s, step);
    }
  }

  ghost predicate AlwaysRoom(s: State, steps: seq<Step>)
    requires Possible(s, steps)
    decreases |steps|
  {
    steps == [] || (HasRoom(s, steps[0]) && AlwaysRoom(Perform(s, steps[0]), steps[1..]))
  }

  ghost predicate AlwaysFifo(s: State, steps: seq<Step>)
    requires Possible(s, steps)
    decreases |steps|
  {
    Fifo(s) && (steps == [] || AlwaysFifo(Perform(s, steps[0]), steps[1..]))
  }

  lemma {:induction false} FifoIffRoomFrom(s: State, steps: seq<Step>)
    requires Inv(s) && Possible(s, steps)
    ensures AlwaysFifo(s, steps) <==> AlwaysRoom(s, steps)
    decreases |steps|
  {
    hide WorkerInv, Perform, Enabled;
    if steps != [] {
      if HasRoom(s, steps[0]) {
        AnyStep(s, steps[0]);
        FifoIffRoomFrom(Perform(s, steps[0]), steps[1..]);
      } else {
        BumpWithoutRoom(s, steps[0]);
      }
    }
  }

  /**
   A run, with any number of producers, is first in, first out throughout if and only if fewer than 255
   texts wait whenever one is made visible.
   */
  lemma FifoIffRoom(n: nat, steps: seq<Step>)
    requires Possible(Initial(n), steps)
    ensures AlwaysFifo(Initial(n), steps) <==> AlwaysRoom(Initial(n), steps)
  {
    InitialInv(n);
    FifoIffRoomFrom(Initial(n), steps);
  }

  // ----- What several producers lose ---------------------------------------------------------------------

  /**
   The texts that a run has not lost, `shown` of them before it: a text that is made visible with room is
   added, and one that is made visible without takes everything with it that was not printed yet.
   */
  ghost function Visible(s: State, steps: seq<Step>, shown: seq<string>): seq<string>
    requires Possible(s, steps)
    decreases |steps|
  {
    if steps == [] then shown
    else
      Visible(Perform(s, steps[0]), steps[1..],
              if !steps[0].BumpStart? then shown
              else if HasRoom(s, steps[0]) then shown + [s.producers[steps[0].i].text]
              else s.printed)
  }

  /** How often a text was made visible without room. */
  ghost function Overflows(s: State, steps: seq<Step>): nat
    requires Possible(s, steps)
    decreases |steps|
  {
    if steps == [] then 0
    else (if HasRoom(s, steps[0]) then 0 else 1) + Overflows(Perform(s, steps[0]), steps[1..])
  }

  /** Without room the queue looks empty, as if nothing but the printed texts had been pushed. */
  lemma OverflowEmpties(s: State, step: Step)
    requires Inv(s) && Enabled(s, step) && !HasRoom(s, step)
    ensures Inv(Perform(s, step).(pushed := s.printed))
    ensures |s.pushed| + 1 == |s.printed| + 256
  {
    BumpEmpties(s, step);
    hide Waiting, Queued;
    assert Perform(s, step).producers[step.i].Bumped?;
  }

  lemma BumpEmpties(s: State, step: Step)
    requires Fifo(s) && Enabled(s, step) && !HasRoom(s, step)
    requires s.start < QUEUE_SIZE && s.slots[s.start] == s.producers[step.i].text
    ensures Queued(Perform(s, step)) == [] && |Queued(s)| == 255
  {
    hide Waiting, Wrapped;
    WrappedPush(s.slots, s.start, s.end);
  }

  lemma {:induction false} VisibleFrom(s: State, steps: seq<Step>, shown: seq<string>)
    requires Possible(s, steps) && Inv(s.(pushed := shown))
    ensures Inv(Execute(s, steps).(pushed := Visible(s, steps, shown)))
    ensures |Execute(s, steps).pushed| - |s.pushed| ==
            |Visible(s, steps, shown)| - |shown| + 256 * Overflows(s, steps)
    decreases |steps|
  {
    if steps != [] {
      var step, now := steps[0], s.(pushed := shown);
      OtherPushed(s, step, shown);
      hide Inv, WorkerInv, Perform, Enabled, HasRoom;
      if HasRoom(s, step) {
        AnyStep(now, step);
        VisibleFrom(Perform(s, step), steps[1..], Perform(now, step).pushed);
      } else {
        OverflowEmpties(now, step);
        VisibleFrom(Perform(s, step), steps[1..], s.printed);
      }
    }
  }

  /** A step takes no notice of what was pushed. */
  lemma OtherPushed(s: State, step: Step, shown: seq<string>)
    requires Enabled(s, step)
    ensures var now := s.(pushed := shown);
            && Enabled(now, step) && (HasRoom(now, step) <==> HasRoom(s, step))
            && Perform(s, step).(pushed := Perform(now, step).pushed) == Perform(now, step)
            && Perform(s, step).(pushed := s.printed) == Perform(now, step).(pushed := s.printed)
            && Perform(now, step).pushed ==
               (if step.BumpStart? then shown + [s.producers[step.i].text] else shown)
            && |Perform(s, step).pushed| == |s.pushed| + (if step.BumpStart? then 1 else 0)
            && (!HasRoom(s, step) ==> step.BumpStart?)
  {
  }

  /**
   Exactly what a run loses, with any number of producers: printed text, text in flight and queued text are
   together what is visible, and each text pushed onto a full queue loses 256 texts, itself included.
   */
  lemma LossIsExact(n: nat, steps: seq<Step>)
    requires Possible(Initial(n), steps)
    ensures var s := Execute(Initial(n), steps);
            && Visible(Initial(n), steps, []) == s.printed + InFlight(s) + Queued(s)
            && |Queued(s)| <= 255
            && |s.pushed| == |Visible(Initial(n), steps, [])| + 256 * Overflows(Initial(n), steps)
  {
    InitialInv(n);
    assert Initial(n).(pushed := []) == Initial(n);
    VisibleFrom(Initial(n), steps, []);
    InvIsFifo(Execute(Initial(n), steps).(pushed := Visible(Initial(n), steps, [])));
  }

  lemma InvIsFifo(s: State)
    requires Inv(s)
    ensures s.pushed == s.printed + InFlight(s) + Queued(s) && |Queued(s)| <= 255
  {
  }

  // ----- One producer always has room --------------------------------------------------------------------

  /** A single producer that found the queue not full still has room. */
  ghost predicate RoomCounted(s: State) {
    |s.producers| <= 1 && forall i :: 0 <= i < |s.producers| && s.producers[i].CountsOnRoom() ==>
                                       |Queued(s)| < 255
  }

  lemma RoomStep(s: State, step: Step)
    requires Inv(s) && Enabled(s, step) && RoomCounted(s)
    ensures HasRoom(s, step) && RoomCounted(Perform(s, step))
  {
    hide Waiting, ItemTot;
    if step.Test? {
      ItemTotIsQueued(s);
    } else if step.BumpEnd? {
      BumpEndPops(s, step);
    } else if step.Copy? {
      WaitingPush(s.slots, s.start, Wrapped(s.end), s.producers[step.i].text);
    }
  }

  lemma ItemTotIsQueued(s: State)
    requires IndexesFit(s) && s.start < QUEUE_SIZE
    ensures ItemTot(s.start, s.end) == |Queued(s)|
  {
  }

  /** Every state of every run with at most one producer is first in, first out. */
  lemma {:induction false} OneProducerFifo(s: State, steps: seq<Step>)
    requires Inv(s) && RoomCounted(s) && Possible(s, steps)
    ensures Inv(Execute(s, steps)) && AlwaysRoom(s, steps)
    decreases |steps|
  {
    hide Inv, Perform, Enabled, RoomCounted;
    if steps != [] {
      RoomStep(s, steps[0]);
      AnyStep(s, steps[0]);
      OneProducerFifo(Perform(s, steps[0]), steps[1..]);
    }
  }

  // ----- Two producers overflow the queue ----------------------------------------------------------------

  lemma Then(s: State, step: Step, rest: seq<Step>)
    requires Enabled(s, step) && Possible(Perform(s, step), rest)
    ensures Possible(s, [step] + rest)
    ensures Execute(s, [step] + rest) == Execute(Perform(s, step), rest)
  {
  }

  lemma {:induction false} ExecuteConcat(s: State, a: seq<Step>, b: seq<Step>)
    requires Possible(s, a) && Possible(Execute(s, a), b)
    ensures Possible(s, a + b) && Execute(s, a + b) == Execute(Execute(s, a), b)
    decreases |a|
  {
    if a == [] {
      assert a + b == b;
    } else {
      ExecuteConcat(Perform(s, a[0]), a[1..], b);
      assert a + b == [a[0]] + (a[1..] + b);
      Then(s, a[0], a[1..] + b);
    }
  }

  /** A producer calls `Push` and finds room. */
  lemma EntersPush(s: State, i: nat, text: string) returns (steps: seq<Step>)
    requires i < |s.producers| && s.producers[i].Idle? && ItemTot(s.start, s.end) != 255
    ensures steps == [Call(i, text), Test(i)]
    ensures Possible(s, steps) && Execute(s, steps) == At(s, i, Passed(text))
  {
    var s1 := Perform(s, Call(i, text));
    Then(s1, Test(i), []);
    Then(s, Call(i, text), [Test(i)]);
    steps := [Call(i, text)] + [Test(i)];
    assert Perform(s1, Test(i)) == At(s, i, Passed(text));
  }

  /** A producer that found room goes through the critical section undisturbed. */
  lemma FinishesPush(s: State, i: nat) returns (steps: seq<Step>)
    requires i < |s.producers| && s.producers[i].Passed? && !s.locked
    requires |s.slots| == QUEUE_SIZE && IsIndex(s.start)
    ensures steps == [Acquire(i), Copy(i), BumpStart(i), WrapStart(i), Release(i)]
    ensures Possible(s, steps)
    ensures var text := s.producers[i].text;
            Execute(s, steps) == At(s, i, Idle).(slots := s.slots[s.start := text], start := Bump(s.start),
                                                 pushed := s.pushed + [text])
  {
    var s1 := Perform(s, Acquire(i));
    var s2 := Perform(s1, Copy(i));
    var s3 := Perform(s2, BumpStart(i));
    var s4 := Perform(s3, WrapStart(i));
    steps := [];
    Then(s4, Release(i), steps);
    steps := [Release(i)] + steps;
    Then(s3, WrapStart(i), steps);
    steps := [WrapStart(i)] + steps;
    Then(s2, BumpStart(i), steps);
    steps := [BumpStart(i)] + steps;
    Then(s1, Copy(i), steps);
    steps := [Copy(i)] + steps;
    Then(s, Acquire(i), steps);
    steps := [Acquire(i)] + steps;
    var text := s.producers[i].text;
    assert Perform(s4, Release(i)).producers == s.producers[i := Idle];
    assert Perform(s4, Release(i)) ==
           At(s, i, Idle).(slots := s.slots[s.start := text], start := Bump(s.start), pushed := s.pushed + [text]);
  }

  /** One producer fills the queue up to `k` texts while the worker sleeps. */
  lemma {:induction false} FillsQueue(n: nat, k: nat) returns (steps: seq<Step>)
    requires n >= 1 && k <= 255
    ensures Possible(Initial(n), steps)
    ensures var s := Execute(Initial(n), steps);
            s == Initial(n).(slots := s.slots, start := k, pushed := s.pushed)
            && |s.slots| == QUEUE_SIZE && |s.pushed| == k
    decreases k
  {
    if k == 0 {
      steps := [];
    } else {
      steps := FillsQueue(n, k - 1);
      var s := Execute(Initial(n), steps);
      var enter := EntersPush(s, 0, "text");
      ExecuteConcat(Initial(n), steps, enter);
      var finish := FinishesPush(At(s, 0, Passed("text")), 0);
      ExecuteConcat(Initial(n), steps + enter, finish);
      steps := steps + enter + finish;
      assert Initial(n).producers[0 := Passed("text")][0 := Idle] == Initial(n).producers;
    }
  }

  /** 255 texts can wait. */
  lemma QueueHolds255(n: nat) returns (steps: seq<Step>)
    requires n >= 1
    ensures Possible(Initial(n), steps) && |Queued(Execute(Initial(n), steps))| == 255
  {
    steps := FillsQueue(n, 255);
  }

  /** With room for one text two producers both pass the test; the second text makes a full queue look empty. */
  lemma TwoProducersOverflow(n: nat) returns (steps: seq<Step>)
    requires n >= 2
    ensures Possible(Initial(n), steps)
    ensures var s := Execute(Initial(n), steps);
            && |s.pushed| == 256 && s.printed == [] && InFlight(s) == []
            && IndexesFit(s) && Queued(s) == []
  {
    steps := FillsQueue(n, 254);
    var s := Execute(Initial(n), steps);
    var enter0 := EntersPush(s, 0, "text");
    ExecuteConcat(Initial(n), steps, enter0);
    var s0 := At(s, 0, Passed("text"));
    var enter1 := EntersPush(s0, 1, "text");
    ExecuteConcat(Initial(n), steps + enter0, enter1);
    var s1 := At(s0, 1, Passed("text"));
    var finish0 := FinishesPush(s1, 0);
    ExecuteConcat(Initial(n), steps + enter0 + enter1, finish0);
    var s2 := Execute(s1, finish0);
    var finish1 := FinishesPush(s2, 1);
    ExecuteConcat(Initial(n), steps + enter0 + enter1 + finish0, finish1);
    steps := steps + enter0 + enter1 + finish0 + finish1;
  }

  /** The queue is first in, first out over all runs if and only if there is at most one producer. */
  lemma FifoIffOneProducer(n: nat)
    ensures (forall steps :: Possible(Initial(n), steps) ==> Fifo(Execute(Initial(n), steps))) <==> n <= 1
  {
    if n <= 1 {
      InitialInv(n);
      forall steps | Possible(Initial(n), steps)
        ensures Fifo(Execute(Initial(n), steps))
      {
        OneProducerFifo(Initial(n), steps);
      }
    } else {
      var steps := TwoProducersOverflow(n);
      assert !Fifo(Execute(Initial(n), steps));
    }
  }

  // ----- The steps do what the methods do ----------------------------------------------------------------

  /** The memory of the queue, as the class has it. */
  function Memory(s: State): Ring {
    Ring(s.slots, s.start, s.end)
  }

  /** Undisturbed, the steps of a producer under the lock are `OutputQueue.Push`. */
  lemma PushSteps(s: State, i: nat) returns (steps: seq<Step>)
    requires i < |s.producers| && s.producers[i].Passed? && !s.locked && Memory(s).Valid()
    ensures Possible(s, steps)
    ensures Memory(Execute(s, steps)) == Memory(s).Pushed(s.producers[i].text)
  {
    steps := FinishesPush(s, i);
  }

  /** Undisturbed, the steps of one round of the worker's loop are `OutputQueue.Pop` and printing its slot. */
  lemma PopSteps(s: State) returns (steps: seq<Step>)
    requires s.worker.Draining? && Memory(s).Valid()
    ensures Possible(s, steps)
    ensures var (memory, slot) := Memory(s).Popped();
            && Memory(Execute(s, steps)) == memory
            && Execute(s, steps).printed == if slot == -1 then s.printed else s.printed + [s.slots[slot]]
  {
    var s1 := Perform(s, TestEmpty);
    steps := [];
    if ItemTot(s.start, s.end) == 0 {
      Then(s, TestEmpty, steps);
      steps := [TestEmpty] + steps;
    } else {
      var s2 := Perform(s1, BumpEnd);
      var s3 := Perform(s2, WrapEnd);
      Then(s3, Print, steps);
      steps := [Print] + steps;
      Then(s2, WrapEnd, steps);
      steps := [WrapEnd] + steps;
      Then(s1, BumpEnd, steps);
      steps := [BumpEnd] + steps;
      Then(s, TestEmpty, steps);
      steps := [TestEmpty] + steps;
    }
  }

  // ----- What one producer gets printed ------------------------------------------------------------------

  /** The texts `Push` is called with, in order. */
  ghost function Calls(steps: seq<Step>): seq<string> {
    if steps == [] then []
    else
      var n := |steps| - 1;
      Calls(steps[..n]) + (if steps[n].Call? then [steps[n].text] else [])
  }

  /** The text a single producer was called with and has not made visible yet. */
  ghost function Pending(s: State): seq<string> {
    if |s.producers| == 1 && (s.producers[0].Testing? || s.producers[0].CountsOnRoom()) then [s.producers[0].text]
    else []
  }

  lemma {:induction false} CallsConcat(a: seq<Step>, b: seq<Step>)
    ensures Calls(a + b) == Calls(a) + Calls(b)
    decreases |b|
  {
    if b == [] {
      assert a + b == a;
    } else {
      var n := |b| - 1;
      assert (a + b)[..|a| + n] == a + b[..n];
      CallsConcat(a, b[..n]);
    }
  }

  /** What was made visible and what is pending are together what `Push` was called with. */
  lemma {:induction false} PushedIsCalled(s: State, steps: seq<Step>)
    requires |s.producers| == 1 && Possible(s, steps)
    ensures |Execute(s, steps).producers| == 1
    ensures Execute(s, steps).pushed + Pending(Execute(s, steps)) == s.pushed + Pending(s) + Calls(steps)
    decreases |steps|
  {
    hide Perform, Enabled, Pending;
    if steps != [] {
      var s', end := Perform(s, steps[0]), Execute(s, steps);
      StepCalls(s, steps[0]);
      PushedIsCalled(s', steps[1..]);
      CallsConcat([steps[0]], steps[1..]);
      assert [steps[0]] + steps[1..] == steps;
      hide Calls, Execute;
      Chain(end.pushed + Pending(end), s'.pushed + Pending(s'), s.pushed + Pending(s),
            Calls([steps[0]]), Calls(steps[1..]));
    }
  }

  lemma Chain(l: seq<string>, m: seq<string>, n: seq<string>, first: seq<string>, rest: seq<string>)
    requires m == n + first && l == m + rest
    ensures l == n + (first + rest)
  {
  }

  lemma StepCalls(s: State, step: Step)
    requires |s.producers| == 1 && Enabled(s, step)
    ensures |Perform(s, step).producers| == 1
    ensures Perform(s, step).pushed + Pending(Perform(s, step)) == s.pushed + Pending(s) + Calls([step])
  {
  }

  /**
   A single producer that pushes the texts of a list in order, as far as it has come: what was printed, what
   is being printed and what waits begin the list. When all were pushed and nothing waits, all were printed.
   */
  lemma OneProducerPrints(texts: seq<string>, steps: seq<Step>)
    requires Possible(Initial(1), steps) && Calls(steps) <= texts
    ensures var s := Execute(Initial(1), steps);
            && s.printed + InFlight(s) + Queued(s) <= texts && |Queued(s)| <= 255
            && (Calls(steps) == texts && Pending(s) == InFlight(s) == Queued(s) == [] ==> s.printed == texts)
  {
    InitialInv(1);
    InitialPending();
    hide Queued, InFlight, Pending, Execute, Possible, Calls, Initial, Inv, WorkerInv, RoomCounted;
    var s := Execute(Initial(1), steps);
    OneProducerFifo(Initial(1), steps);
    PushedIsCalled(Initial(1), steps);
    InvIsFifo(s);
    Beginning(s.pushed, Pending(s), Calls(steps), texts);
  }

  lemma Beginning(pushed: seq<string>, pending: seq<string>, calls: seq<string>, texts: seq<string>)
    requires pushed + pending == [] + [] + calls && calls <= texts
    ensures pushed <= texts && (calls == texts && pending == [] ==> pushed == texts)
  {
    var none: seq<string> := [];
    assert none + [] + calls == calls;
    assert pushed <= pushed + pending;
  }

  lemma InitialPending()
    ensures |Initial(1).producers| == 1 && Initial(1).pushed == Pending(Initial(1)) == [] && RoomCounted(Initial(1))
  {
  }

  // ----- Progress ----------------------------------------------------------------------------------------

  /** The lock is taken only while the worker is awake or a producer is inside the critical section. */
  ghost predicate LockHeld(s: State) {
    s.locked ==> s.worker != Asleep || exists i :: 0 <= i < |s.producers| && s.producers[i].HoldsLock()
  }

  lemma LockStep(s: State, step: Step)
    requires LockHeld(s) && Enabled(s, step)
    ensures LockHeld(Perform(s, step))
  {
    if i :| 0 <= i < |s.producers| && s.producers[i].HoldsLock() {
      var s' := Perform(s, step);
      assert |s'.producers| == |s.producers|;
      assert s'.producers[i] == s.producers[i] || s'.producers[i].HoldsLock() || !s'.locked;
    }
    if step.Acquire? {
      assert Perform(s, step).producers[step.i].HoldsLock();
    }
  }

  /** The state of a run that may have lost texts: the invariant holds of the texts not lost. */
  ghost predicate Reachable(s: State, shown: seq<string>) {
    Inv(s.(pushed := shown)) && LockHeld(s)
  }

  lemma ReachableStep(s: State, shown: seq<string>, step: Step) returns (shown': seq<string>)
    requires Reachable(s, shown) && Enabled(s, step)
    ensures Reachable(Perform(s, step), shown')
  {
    LockStep(s, step);
    hide Inv, LockHeld;
    assert Possible(s, [step]);
    shown' := Visible(s, [step], shown);
    VisibleFrom(s, [step], shown);
  }

  lemma {:induction false} ReachableRun(s: State, shown: seq<string>, steps: seq<Step>) returns (shown': seq<string>)
    requires Reachable(s, shown) && Possible(s, steps)
    ensures Reachable(Execute(s, steps), shown')
    decreases |steps|
  {
    hide Reachable, Perform, Enabled;
    shown' := shown;
    if steps != [] {
      shown' := ReachableStep(s, shown, steps[0]);
      shown' := ReachableRun(Perform(s, steps[0]), shown', steps[1..]);
    }
  }

  /** Nothing waits, nothing is being printed, and the lock is free. */
  ghost predicate Quiet(s: State) {
    s.worker.Asleep? && !s.locked && IndexesFit(s) && Queued(s) == []
  }

  /** The producer inside the critical section can always go on, until it gives the lock back. */
  lemma {:induction false} ProducerReleases(s: State, shown: seq<string>, i: nat) returns (steps: seq<Step>)
    requires Reachable(s, shown) && i < |s.producers| && s.producers[i].HoldsLock()
    ensures Possible(s, steps) && Calls(steps) == []
    ensures !Execute(s, steps).locked && Execute(s, steps).producers == s.producers[i := Idle]
    decreases match s.producers[i] case Locked(_) => 4 case Copied(_) => 3 case Bumped => 2 case _ => 1
  {
    var step := match s.producers[i]
      case Locked(_) => Copy(i)
      case Copied(_) => BumpStart(i)
      case Bumped => WrapStart(i)
      case _ => Release(i);
    HolderGoesOn(s, shown, i, step);
    var shown' := ReachableStep(s, shown, step);
    var s' := Perform(s, step);
    assert s'.producers == s.producers[i := s'.producers[i]];
    hide Reachable;
    if step.Release? {
      steps := [];
    } else {
      steps := ProducerReleases(s', shown', i);
    }
    Then(s, step, steps);
    StepNoCall(step, steps);
    steps := [step] + steps;
  }

  lemma HolderGoesOn(s: State, shown: seq<string>, i: nat, step: Step)
    requires Reachable(s, shown) && i < |s.producers| && s.producers[i].HoldsLock()
    requires step == match s.producers[i]
                     case Locked(_) => Copy(i)
                     case Copied(_) => BumpStart(i)
                     case Bumped => WrapStart(i)
                     case _ => Release(i)
    ensures Enabled(s, step)
  {
    hide Waiting, ItemTot;
  }

  lemma StepNoCall(step: Step, steps: seq<Step>)
    requires !step.Call? && Calls(steps) == []
    ensures Calls([step] + steps) == []
  {
    CallsConcat([step], steps);
    assert [step][..0] == [];
  }

  /** What is left for the worker to do. */
  ghost function WorkLeft(s: State): nat {
    5 * |Queued(s)| +
    match s.worker
    case Asleep => if Queued(s) == [] then 0 else 3
    case Leaving => if Queued(s) == [] then 1 else 4
    case Draining => 2
    case Popping(_) => 1
    case Popped(_) => 4
    case Printing(_) => 3
  }

  /** The step the worker takes next. */
  function WorkerStep(w: Worker): Step {
    match w
    case Asleep => Wake
    case Draining => TestEmpty
    case Popping(_) => BumpEnd
    case Popped(_) => WrapEnd
    case Printing(_) => Print
    case Leaving => Sleep
  }

  /** The step can be taken, leaves the producers alone, and leaves less work. */
  ghost predicate GoesOn(s: State, step: Step) {
    && Enabled(s, step) && Perform(s, step).producers == s.producers
    && WorkLeft(Perform(s, step)) < WorkLeft(s)
    && (Perform(s, step).worker != Asleep || !Perform(s, step).locked)
  }

  lemma WorkerGoesOn(s: State, shown: seq<string>)
    requires Reachable(s, shown) && (s.worker != Asleep || !s.locked) && !Quiet(s)
    ensures GoesOn(s, WorkerStep(s.worker))
  {
    WorkerState(s, shown);
    if s.worker.Draining? {
      WorkerTests(s);
    } else if s.worker.Popping? {
      WorkerBumps(s, shown);
    } else {
      hide Waiting, ItemTot, Reachable;
    }
  }

  lemma WorkerState(s: State, shown: seq<string>)
    requires Reachable(s, shown)
    ensures IndexesFit(s) && WorkerInv(s) && (s.worker != Asleep ==> s.start < QUEUE_SIZE)
  {
    hide Waiting, ItemTot;
  }

  lemma InvParts(s: State)
    requires Inv(s)
    ensures Fifo(s) && WorkerInv(s)
  {
  }

  lemma WorkerTests(s: State)
    requires IndexesFit(s) && WorkerInv(s) && s.start < QUEUE_SIZE && s.worker.Draining?
    ensures GoesOn(s, TestEmpty)
  {
    ItemTotIsQueued(s);
    hide Waiting, ItemTot, Queued;
    assert Queued(Perform(s, TestEmpty)) == Queued(s) by {
      SameQueue(s, Perform(s, TestEmpty));
    }
  }

  lemma SameQueue(s: State, s': State)
    requires s'.slots == s.slots && s'.start == s.start && s'.end == s.end
    ensures Queued(s') == Queued(s)
  {
  }

  lemma WorkerBumps(s: State, shown: seq<string>)
    requires Reachable(s, shown) && s.worker.Popping?
    ensures GoesOn(s, BumpEnd)
  {
    var now := s.(pushed := shown);
    hide Waiting, ItemTot, Inv;
    WorkerState(s, shown);
    InvParts(now);
    BumpEndPops(now, BumpEnd);
    SameQueue(now, s);
    SameQueue(Perform(now, BumpEnd), Perform(s, BumpEnd));
    hide Queued;
    assert |InFlight(Perform(now, BumpEnd))| == 1;
  }

  /** The worker can always go on until nothing waits, and then gives the lock back. */
  lemma {:induction false} WorkerDrains(s: State, shown: seq<string>) returns (steps: seq<Step>)
    requires Reachable(s, shown) && (s.worker != Asleep || !s.locked)
    ensures Possible(s, steps) && Calls(steps) == []
    ensures Quiet(Execute(s, steps)) && Execute(s, steps).producers == s.producers
    decreases WorkLeft(s)
  {
    if Quiet(s) {
      steps := [];
    } else {
      WorkerGoesOn(s, shown);
      hide Reachable, Quiet, WorkLeft, Perform, Enabled;
      var step := WorkerStep(s.worker);
      var shown' := ReachableStep(s, shown, step);
      steps := WorkerDrains(Perform(s, step), shown');
      Then(s, step, steps);
      StepNoCall(step, steps);
      steps := [step] + steps;
    }
  }

  /** A producer that holds the lock gives it back. */
  lemma FreesLock(s: State, shown: seq<string>) returns (steps: seq<Step>)
    requires Reachable(s, shown)
    ensures Possible(s, steps) && Calls(steps) == []
    ensures Execute(s, steps).worker != Asleep || !Execute(s, steps).locked
    ensures SameOrIdle(s.producers, Execute(s, steps).producers)
  {
    steps := [];
    if s.worker == Asleep && s.locked {
      var i :| 0 <= i < |s.producers| && s.producers[i].HoldsLock();
      hide Reachable, Execute, Possible, Calls;
      steps := ProducerReleases(s, shown, i);
    }
  }

  ghost predicate SameOrIdle(before: seq<Producer>, after: seq<Producer>) {
    |before| == |after| && forall i :: 0 <= i < |before| ==> after[i] == before[i] || after[i] == Idle
  }

  /** From every state of every run further steps, none of them a call, lead to a quiet one. */
  lemma ComesToRest(s: State, shown: seq<string>) returns (steps: seq<Step>)
    requires Reachable(s, shown)
    ensures Possible(s, steps) && Calls(steps) == []
    ensures Quiet(Execute(s, steps)) && SameOrIdle(s.producers, Execute(s, steps).producers)
  {
    hide Reachable, Quiet, Execute, Possible, SameOrIdle;
    steps := FreesLock(s, shown);
    var shown' := ReachableRun(s, shown, steps);
    var drain := WorkerDrains(Execute(s, steps), shown');
    ExecuteConcat(s, steps, drain);
    CallsConcat(steps, drain);
    steps := steps + drain;
  }

  lemma InitialReachable(n: nat)
    ensures Reachable(Initial(n), [])
  {
    InitialInv(n);
    assert Initial(n).(pushed := []) == Initial(n);
  }

  /**
   With any number of producers, after any run, further steps bring it about that everything that is not
   lost is printed, the worker sleeps and the lock is free.
   */
  lemma EverythingGetsPrinted(n: nat, steps: seq<Step>) returns (more: seq<Step>)
    requires Possible(Initial(n), steps)
    ensures Possible(Initial(n), steps + more) && Calls(more) == []
    ensures var s := Execute(Initial(n), steps + more);
            && s.worker.Asleep? && !s.locked && Queued(s) == []
            && s.printed == Visible(Initial(n), steps + more, [])
  {
    InitialReachable(n);
    hide Reachable, Initial, Execute, Possible, Visible;
    var shown := ReachableRun(Initial(n), [], steps);
    more := ComesToRest(Execute(Initial(n), steps), shown);
    ExecuteConcat(Initial(n), steps, more);
    LossIsExact(n, steps + more);
    QuietPrinted(Execute(Initial(n), steps + more));
  }

  lemma QuietPrinted(s: State)
    requires Quiet(s)
    ensures s.printed + InFlight(s) + Queued(s) == s.printed && InFlight(s) == []
  {
  }

  // ----- One producer gets everything printed ------------------------------------------------------------

  lemma QuietHasRoom(s: State, shown: seq<string>)
    requires Reachable(s, shown) && Quiet(s)
    ensures |s.slots| == QUEUE_SIZE && IsIndex(s.start) && ItemTot(s.start, s.end) == 0
  {
    ItemTotIsQueued(s);
  }

  lemma {:induction false} NoCalls(steps: seq<Step>)
    requires forall k :: 0 <= k < |steps| ==> !steps[k].Call?
    ensures Calls(steps) == []
    decreases |steps|
  {
    if steps != [] {
      NoCalls(steps[..|steps| - 1]);
    }
  }

  lemma PushCalls(i: nat, text: string)
    ensures Calls([Call(i, text), Test(i)]) == [text]
    ensures Calls([Acquire(i), Copy(i), BumpStart(i), WrapStart(i), Release(i)]) == []
  {
    NoCalls([Acquire(i), Copy(i), BumpStart(i), WrapStart(i), Release(i)]);
    NoCalls([Test(i)]);
    CallsConcat([Call(i, text)], [Test(i)]);
    assert [Call(i, text)][..0] == [];
    assert [Call(i, text)] + [Test(i)] == [Call(i, text), Test(i)];
  }

  /** A single producer in a quiet state makes a push, or finishes the one it is waiting in. */
  lemma MakesPush(s: State, shown: seq<string>, text: string) returns (steps: seq<Step>)
    requires Reachable(s, shown) && Quiet(s) && |s.producers| == 1
    requires s.producers[0].Idle? || s.producers[0].Testing? || s.producers[0].Passed?
    ensures Possible(s, steps) && Execute(s, steps).producers == [Idle]
    ensures Calls(steps) == if s.producers[0].Idle? then [text] else []
  {
    QuietHasRoom(s, shown);
    PushCalls(0, text);
    assert !s.locked;
    hide Reachable, Quiet, ItemTot, Calls, Possible, Execute;
    var one := At(s, 0, Passed(if s.producers[0].Idle? then text else s.producers[0].text));
    var finish := FinishesPush(one, 0);
    assert one.producers[0 := Idle] == [Idle];
    if s.producers[0].Idle? {
      steps := EntersPush(s, 0, text);
      ExecuteConcat(s, steps, finish);
      CallsConcat(steps, finish);
      steps := steps + finish;
    } else if s.producers[0].Testing? {
      assert Perform(s, Test(0)) == one;
      Then(s, Test(0), finish);
      StepNoCall(Test(0), finish);
      steps := [Test(0)] + finish;
    } else {
      assert one.producers == s.producers;
      assert one == s;
      steps := finish;
    }
  }

  /** After any run of one producer further steps, none of them a call, lead to a quiet state. */
  lemma RunRests(steps: seq<Step>) returns (rest: seq<Step>, shown: seq<string>)
    requires Possible(Initial(1), steps)
    ensures Possible(Initial(1), steps + rest) && Calls(steps + rest) == Calls(steps)
    ensures var s := Execute(Initial(1), steps + rest);
            && Quiet(s) && Reachable(s, shown) && |s.producers| == 1
            && (s.producers[0].Idle? || s.producers[0].Testing? || s.producers[0].Passed?)
            && |Pending(s)| <= |Pending(Execute(Initial(1), steps))|
  {
    InitialReachable(1);
    InitialPending();
    hide Reachable, Initial, Execute, Possible, Quiet, Calls, Pending;
    var before := Execute(Initial(1), steps);
    var shown' := ReachableRun(Initial(1), [], steps);
    PushedIsCalled(Initial(1), steps);
    rest := ComesToRest(before, shown');
    ExecuteConcat(Initial(1), steps, rest);
    CallsConcat(steps, rest);
    var s := Execute(Initial(1), steps + rest);
    shown := ReachableRun(before, shown', rest);
    QuietProducer(s, shown);
    PendingKept(before, s);
  }

  lemma QuietProducer(s: State, shown: seq<string>)
    requires Reachable(s, shown) && Quiet(s) && |s.producers| == 1
    ensures s.producers[0].Idle? || s.producers[0].Testing? || s.producers[0].Passed?
  {
    hide Waiting;
  }

  lemma PendingKept(s: State, s': State)
    requires |s.producers| == 1 && SameOrIdle(s.producers, s'.producers)
    ensures |Pending(s')| <= |Pending(s)|
  {
  }

  lemma NextPush(run: seq<Step>, push: seq<Step>)
    requires Possible(Initial(1), run) && Possible(Execute(Initial(1), run), push)
    requires Execute(Execute(Initial(1), run), push).producers == [Idle]
    ensures Possible(Initial(1), run + push) && Calls(run + push) == Calls(run) + Calls(push)
    ensures Pending(Execute(Initial(1), run + push)) == []
  {
    hide Possible, Calls, Execute, Initial;
    ExecuteConcat(Initial(1), run, push);
    CallsConcat(run, push);
  }

  lemma NextCall(calls: seq<string>, texts: seq<string>)
    requires calls <= texts && calls != texts
    ensures |calls| < |texts| && calls + [texts[|calls|]] <= texts
  {
  }

  /** What is left of a list after a run, counting a push under way. */
  ghost function PushesLeft(texts: seq<string>, steps: seq<Step>): int
    requires Possible(Initial(1), steps)
  {
    2 * (|texts| - |Calls(steps)|) + |Pending(Execute(Initial(1), steps))|
  }

  /**
   Every run in which one producer pushes a beginning of a list can be completed to one in which it pushes
   the whole list and all of it is printed.
   */
  lemma {:induction false} EveryRunCompletes(texts: seq<string>, steps: seq<Step>) returns (more: seq<Step>)
    requires Possible(Initial(1), steps) && Calls(steps) <= texts
    ensures Possible(Initial(1), steps + more) && Calls(steps + more) == texts
    ensures Execute(Initial(1), steps + more).printed == texts
    decreases PushesLeft(texts, steps)
  {
    hide Reachable, Initial, Execute, Possible, Quiet, Calls;
    var rest, shown := RunRests(steps);
    var run := steps + rest;
    var s := Execute(Initial(1), run);
    if s.producers[0].Idle? && Calls(run) == texts {
      more := rest;
      OneProducerPrints(texts, run);
      QuietPrinted(s);
      RestPrinted(s);
    } else {
      var text := "";
      if s.producers[0].Idle? {
        NextCall(Calls(run), texts);
        text := texts[|Calls(run)|];
      }
      var push := MakesPush(s, shown, text);
      NextPush(run, push);
      var later := EveryRunCompletes(texts, run + push);
      more := rest + push + later;
      assert steps + more == run + push + later;
    }
  }

  lemma RestPrinted(s: State)
    requires Quiet(s) && |s.producers| == 1 && s.producers[0].Idle?
    ensures Pending(s) == InFlight(s) == Queued(s) == []
  {
  }
}
