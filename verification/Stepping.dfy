/** The debugger's stepping commands (crates/debugger/src/debugger.rs) over the executor's single
    step (crates/wasmi/src/engine/executor/instrs.rs). */
module Stepping {
  import opened Wrappers

  datatype Signal = Next | Breakpoint | End

  /** What one instruction does to the call stack, and what it leaves for the debugger to see.
      Function indices are the debugger's. What an indirect call reports is read, after the call,
      from the table of the instance then running, which need not be the caller's. */
  datatype Event =
    | Plain                        // no effect on the call stack
    | Return                       // a return that is taken
    | ReturnNotTaken               // a conditional return whose condition is false
    | CallInternal(func: nat)
    | CallImportedWasm(func: nat)
    | CallImportedHost
    | CallIndirectWasm(func: nat, reported: nat)
    | CallIndirectHost(reported: nat)
    | TailCallWasm(func: nat)
    | TailCallHost
    | Trap                         // an error that leaves the call stack alone
    | TailCallHostTrap             // an error after the tail caller of a host function was popped

  /** A program as the debugger meets it: the next event and the offset of the next instruction,
      both determined by a hidden machine state, and the breakpoints. */
  datatype Program<!S> = Program(
    event: S -> Event,
    after: S -> S,
    offset: S -> nat,
    lineStarts: set<nat>,
    breaksOn: nat -> bool)

  /** The executor's hidden state and call stack, and the interceptor's state in the debugger. */
  datatype World<S> = World(hidden: S, frames: seq<nat>, invoked: seq<nat>, interrupted: bool)

  function Pop(s: seq<nat>): seq<nat> {
    if s == [] then s else s[..|s| - 1]
  }

  /** The call stack after an event. */
  function FramesAfter(e: Event, frames: seq<nat>): seq<nat> {
    match e
    case Return => Pop(frames)
    case CallInternal(f) => frames + [f]
    case CallImportedWasm(f) => frames + [f]
    case CallIndirectWasm(f, _) => frames + [f]
    case TailCallWasm(f) => Pop(frames) + [f]
    case TailCallHost => Pop(frames)
    case TailCallHostTrap => Pop(frames)
    case _ => frames
  }

  /** The function index a step reports to the debugger, if any. */
  function Reported(e: Event): Option<nat> {
    match e
    case CallInternal(f) => Some(f)
    case CallIndirectWasm(_, f) => Some(f)
    case CallIndirectHost(f) => Some(f)
    case _ => None
  }

  predicate Traps(e: Event) { e.Trap? || e.TailCallHostTrap? }

  /** Every return instruction asks for a pop, whether it is taken or not. */
  predicate AsksForPop(e: Event) { e.Return? || e.ReturnNotTaken? }

  /** The debugger's own list of invoked functions after an event: `invoke_func`, then `pop_frame`. */
  function InvokedAfter(e: Event, invoked: seq<nat>): seq<nat> {
    var pushed := match Reported(e) case Some(f) => invoked + [f] case None => invoked;
    if AsksForPop(e) then Pop(pushed) else pushed
  }

  /** A return ends the run when it leaves, or finds, no frame. */
  predicate Ends(e: Event, frames: seq<nat>) {
    AsksForPop(e) && (frames == [] || FramesAfter(e, frames) == [])
  }

  /** `execute_step`: the signals of the instruction, of the call and of the executor combined. */
  function ExecuteStep<S>(p: Program<S>, w: World<S>): (Result<Signal, ()>, World<S>) {
    var stops := w.interrupted && p.offset(w.hidden) in p.lineStarts;
    var armed := if stops then w.(interrupted := false) else w;
    var e := p.event(w.hidden);
    if Traps(e) then (Err(()), armed.(hidden := p.after(w.hidden), frames := FramesAfter(e, w.frames)))
    else
      var w' := World(p.after(w.hidden), FramesAfter(e, w.frames), InvokedAfter(e, w.invoked), armed.interrupted);
      var signal :=
        if Ends(e, w.frames) then End
        else if stops then Breakpoint
        else match Reported(e)
          case Some(f) => if p.breaksOn(f) then Breakpoint else Next
          case None => Next;
      (Ok(signal), w')
  }

  /** The executor with the debugger as its interceptor: `execute_step`, which calls back into
      `execute_inst`, `invoke_func` and `pop_frame`. */
  class InterceptedExecutor<S> {
    const program: Program<S>
    var hidden: S
    var frames: seq<nat>
    var invoked: seq<nat>
    var interrupted: bool

    function State(): World<S>
      reads this
    {
      World(hidden, frames, invoked, interrupted)
    }

    constructor (program: Program<S>, start: S, main: nat)
      ensures this.program == program && State() == World(start, [main], [main], true)
    {
      this.program := program;
      hidden, frames, invoked, interrupted := start, [main], [main], true;
    }

    /** Breaks once at the start of a source line, then not again until the next run. */
    method ExecuteInst(offset: nat) returns (signal: Signal)
      modifies this`interrupted
      ensures var stops := old(interrupted) && offset in program.lineStarts;
              signal == (if stops then Breakpoint else Next) && interrupted == (old(interrupted) && !stops)
    {
      if interrupted && offset in program.lineStarts {
        interrupted := false;
        signal := Breakpoint;
      } else {
        signal := Next;
      }
    }

    method InvokeFunc(func: nat) returns (signal: Signal)
      modifies this`invoked
      ensures invoked == old(invoked) + [func]
      ensures signal == if program.breaksOn(func) then Breakpoint else Next
    {
      invoked := invoked + [func];
      signal := if program.breaksOn(func) then Breakpoint else Next;
    }

    method PopFrame()
      modifies this`invoked
      ensures invoked == Pop(old(invoked))
    {
      invoked := Pop(invoked);
    }

    method Step() returns (r: Result<Signal, ()>)
      modifies this
      ensures (r, State()) == ExecuteStep(program, old(State()))
    {
      var signalInst := ExecuteInst(program.offset(hidden));
      var e := program.event(hidden);
      hidden := program.after(hidden);
      var ends := Ends(e, frames);
      frames := FramesAfter(e, frames);
      if Traps(e) {
        return Err(());
      }
      var signalCall := Next;
      if Reported(e).Some? {
        signalCall := InvokeFunc(Reported(e).value);
      }
      if AsksForPop(e) {
        PopFrame();
      }
      r := Ok(if ends then End else if signalInst == Breakpoint then Breakpoint else signalCall);
    }
  }

  // ----- runs of a step --------------------------------------------------------------------

  type Stepper<!S> = World<S> -> (Result<Signal, ()>, World<S>)

  /** The step of a program. */
  function Interpreter<S>(p: Program<S>): Stepper<S> {
    w => ExecuteStep(p, w)
  }

  /** The world after `n` steps. */
  function Reach<S>(step: Stepper<S>, w: World<S>, n: nat): World<S> {
    if n == 0 then w else step(Reach(step, w, n - 1)).1
  }

  /** The outcome of the step that follows the first `n`. */
  function SignalAt<S>(step: Stepper<S>, w: World<S>, n: nat): Result<Signal, ()> {
    step(Reach(step, w, n)).0
  }

  function Depth<S>(w: World<S>): nat { |w.frames| }

  /** Among the first `bound` steps one ends the run or traps. */
  ghost predicate Halts<S>(step: Stepper<S>, w: World<S>, bound: nat) {
    exists n :: 0 <= n < bound && Stops(SignalAt(step, w, n))
  }

  /** If the next step ends the run it leaves no frame. */
  predicate EndsEmpty<S>(step: Stepper<S>, w: World<S>) {
    step(w).0 == Ok(End) ==> step(w).1.frames == []
  }

  predicate Stops(r: Result<Signal, ()>) { r.Err? || r.value == End }

  // ----- the commands ----------------------------------------------------------------------

  datatype StepStyle = InstIn | InstOver | Out

  /** `Finish` carries the results in the original. */
  datatype RunResult = Finished | AtBreakpoint | Stepped

  function ResultOf(r: Result<Signal, ()>): Result<RunResult, ()> {
    match r
    case Err(_) => Err(())
    case Ok(Next) => Ok(Stepped)
    case Ok(Breakpoint) => Ok(AtBreakpoint)
    case Ok(End) => Ok(Finished)
  }

  /** The `i`-th step gave `Next` and left too many frames to stop at. */
  ghost predicate GoesOn<S>(step: Stepper<S>, w: World<S>, enough: nat -> bool, i: nat) {
    i > 0 && SignalAt(step, w, i - 1) == Ok(Next) && !enough(Depth(Reach(step, w, i)))
  }

  /** The `n`-th step is the first after the `from`-th that gives another signal than `Next` or
      leads to a state with `enough` few frames. */
  ghost predicate FirstStop<S>(step: Stepper<S>, w: World<S>, from: nat, enough: nat -> bool, n: nat) {
    && from < n
    && (forall i: nat :: from < i < n ==> GoesOn(step, w, enough, i))
    && !GoesOn(step, w, enough, n)
  }

  lemma FirstStopUnique<S>(step: Stepper<S>, w: World<S>, from: nat, enough: nat -> bool, n: nat, m: nat)
    requires FirstStop(step, w, from, enough, n) && FirstStop(step, w, from, enough, m)
    ensures n == m
  {
  }

  function Never(): nat -> bool { _ => false }

  function FewerFrames(depth: nat): nat -> bool { d => d < depth }

  class MainDebugger<S> {
    /** The executor's step, with the debugger as its interceptor. */
    const step: Stepper<S>
    var hidden: S
    var frames: seq<nat>
    var invoked: seq<nat>
    var interrupted: bool

    function State(): World<S>
      reads this
    {
      World(hidden, frames, invoked, interrupted)
    }

    constructor (step: Stepper<S>, start: S, main: nat)
      ensures this.step == step
      ensures State() == World(start, [main], [main], true)
    {
      this.step := step;
      hidden, frames, invoked, interrupted := start, [main], [main], true;
    }

    method Advance() returns (r: Result<Signal, ()>)
      modifies this
      ensures (r, State()) == step(old(State()))
    {
      var (signal, w) := step(State());
      hidden, frames, invoked, interrupted := w.hidden, w.frames, w.invoked, w.interrupted;
      r := signal;
    }

    method StepIn() returns (r: Result<RunResult, ()>)
      modifies this
      ensures r == ResultOf(SignalAt(step, old(State()), 0))
      ensures State() == Reach(step, old(State()), 1)
      ensures Performed(step, old(State()), InstIn, 1, r, State())
    {
      ghost var w := State();
      assert Reach(step, w, 0) == w;
      var signal := Advance();
      r := ResultOf(signal);
    }

    /** The loop shared by `InstOver` and `Out`: a step, and further steps as long as none gives a
        signal and at least `limit` frames are left. */
    method RunWhileAtLeast(limit: nat, ghost bound: nat) returns (r: Result<RunResult, ()>)
      requires Halts(step, State(), bound)
      modifies this
      ensures exists n: nat ::
                && FirstStop(step, old(State()), 0, FewerFrames(limit), n)
                && n > 0 && State() == Reach(step, old(State()), n)
                && r == ResultOf(SignalAt(step, old(State()), n - 1))
    {
      ghost var w := State();
      var signal := Advance();
      ghost var n := 1;
      while signal == Ok(Next) && limit <= |frames|
        invariant 1 <= n
        invariant State() == Reach(step, w, n) && signal == SignalAt(step, w, n - 1)
        invariant forall i: nat :: 0 < i < n ==> GoesOn(step, w, FewerFrames(limit), i)
        decreases bound - n
      {
        assert GoesOn(step, w, FewerFrames(limit), n);
        NotPastTheStop(step, w, FewerFrames(limit), bound, n);
        signal := Advance();
        n := n + 1;
      }
      assert FirstStop(step, w, 0, FewerFrames(limit), n);
      r := ResultOf(signal);
    }

    /** `InstOver` stops at the first signal, or when no more frames are left than at its start. */
    method StepOver(ghost bound: nat) returns (r: Result<RunResult, ()>)
      requires Halts(step, State(), bound)
      modifies this
      ensures exists n: nat :: Performed(step, old(State()), InstOver, n, r, State())
    {
      ghost var w := State();
      r := RunWhileAtLeast(|frames| + 1, bound);
      ghost var n: nat :| FirstStop(step, w, 0, FewerFrames(Depth(w) + 1), n)
                          && n > 0 && State() == Reach(step, w, n)
                          && r == ResultOf(SignalAt(step, w, n - 1));
      assert Performed(step, w, InstOver, n, r, State());
    }

    /** The signal of the first step is discarded, as in the original. */
    method StepOut(ghost bound: nat) returns (r: Result<RunResult, ()>)
      requires Halts(step, State(), bound) && frames != [] && EndsEmpty(step, State())
      modifies this
      ensures exists n: nat :: Performed(step, old(State()), Out, n, r, State())
    {
      ghost var w := State();
      var initial := |frames|;
      var first := Advance();
      assert first == SignalAt(step, w, 0) && State() == Reach(step, w, 1);
      if first.Err? {
        r := Err(());
        assert Performed(step, w, Out, 1, r, State());
        return;
      }
      if initial <= |frames| {
        ghost var w1 := State();
        HaltsAfterFirst(step, w, bound);
        r := RunWhileAtLeast(initial, bound);
        ghost var m: nat :| FirstStop(step, w1, 0, FewerFrames(initial), m)
                            && m > 0 && State() == Reach(step, w1, m)
                            && r == ResultOf(SignalAt(step, w1, m - 1));
        OutGoesOn(step, w, m);
        assert Performed(step, w, Out, m + 1, r, State());
      } else {
        r := Ok(Stepped);
        assert Performed(step, w, Out, 1, r, State());
      }
    }

    /** `step`, in the three styles. */
    method Step(style: StepStyle, ghost bound: nat) returns (r: Result<RunResult, ()>)
      requires !style.InstIn? ==> Halts(step, State(), bound)
      requires style.Out? ==> frames != [] && EndsEmpty(step, State())
      modifies this
      ensures exists n: nat :: Performed(step, old(State()), style, n, r, State())
    {
      match style
      case InstIn => r := StepIn();
      case InstOver => r := StepOver(bound);
      case Out => r := StepOut(bound);
    }

    method Process(ghost bound: nat) returns (r: Result<RunResult, ()>)
      requires Halts(step, State(), bound)
      modifies this
      ensures exists n: nat ::
                && FirstStop(step, old(State()), 0, Never(), n)
                && n > 0 && State() == Reach(step, old(State()), n)
                && r == ResultOf(SignalAt(step, old(State()), n - 1))
    {
      ghost var w := State();
      var signal := Advance();
      ghost var n := 1;
      while signal == Ok(Next)
        invariant 1 <= n && State() == Reach(step, w, n) && signal == SignalAt(step, w, n - 1)
        invariant forall i: nat :: 0 < i < n ==> GoesOn(step, w, Never(), i)
        decreases bound - n
      {
        assert GoesOn(step, w, Never(), n);
        NotPastTheStop(step, w, Never(), bound, n);
        signal := Advance();
        n := n + 1;
      }
      assert FirstStop(step, w, 0, Never(), n);
      r := ResultOf(signal);
    }

    /** Repeating `InstIn` until it gives something else than `Next` is `Process`. */
    method RepeatStepIn(ghost bound: nat) returns (r: Result<RunResult, ()>)
      requires Halts(step, State(), bound)
      modifies this
      ensures exists n: nat ::
                && FirstStop(step, old(State()), 0, Never(), n)
                && n > 0 && State() == Reach(step, old(State()), n)
                && r == ResultOf(SignalAt(step, old(State()), n - 1))
    {
      ghost var w := State();
      ghost var n := 1;
      r := StepIn();
      while r == Ok(Stepped)
        invariant 1 <= n && State() == Reach(step, w, n)
        invariant r == ResultOf(SignalAt(step, w, n - 1))
        invariant forall i: nat :: 0 < i < n ==> GoesOn(step, w, Never(), i)
        decreases bound - n
      {
        assert GoesOn(step, w, Never(), n);
        NotPastTheStop(step, w, Never(), bound, n);
        r := StepIn();
        StepFrom(step, w, n);
        n := n + 1;
      }
      assert FirstStop(step, w, 0, Never(), n);
    }
  }

  /** A halting run cannot go on up to its bound. */
  lemma NotPastTheStop<S>(step: Stepper<S>, w: World<S>, enough: nat -> bool, bound: nat, n: nat)
    requires Halts(step, w, bound)
    requires forall i: nat :: 0 < i <= n ==> GoesOn(step, w, enough, i)
    ensures n < bound
  {
    forall i: nat | i < n
      ensures SignalAt(step, w, i) == Ok(Next)
    {
      assert GoesOn(step, w, enough, i + 1);
    }
    var stop :| 0 <= stop < bound && Stops(SignalAt(step, w, stop));
  }

  /** The step from the `n`-th state is the step that follows the first `n`. */
  lemma StepFrom<S>(step: Stepper<S>, w: World<S>, n: nat)
    ensures SignalAt(step, Reach(step, w, n), 0) == SignalAt(step, w, n)
    ensures Reach(step, Reach(step, w, n), 1) == Reach(step, w, n + 1)
  {
    assert Reach(step, Reach(step, w, n), 0) == Reach(step, w, n);
  }

  lemma {:induction false} ReachShifts<S>(step: Stepper<S>, w: World<S>, n: nat)
    ensures Reach(step, Reach(step, w, 1), n) == Reach(step, w, n + 1)
    ensures SignalAt(step, Reach(step, w, 1), n) == SignalAt(step, w, n + 1)
  {
    if n > 0 {
      ReachShifts(step, w, n - 1);
    }
  }

  lemma HaltsAfterFirst<S>(step: Stepper<S>, w: World<S>, bound: nat)
    requires Halts(step, w, bound) && !Stops(SignalAt(step, w, 0))
    ensures Halts(step, Reach(step, w, 1), bound)
  {
    var n :| 0 <= n < bound && Stops(SignalAt(step, w, n));
    ReachShifts(step, w, n - 1);
  }

  lemma GoesOnShifts<S>(step: Stepper<S>, w: World<S>, enough: nat -> bool, i: nat)
    requires i > 0
    ensures GoesOn(step, w, enough, i + 1) <==> GoesOn(step, Reach(step, w, 1), enough, i)
  {
    ReachShifts(step, w, i);
    ReachShifts(step, w, i - 1);
  }

  lemma FirstStopShifts<S>(step: Stepper<S>, w: World<S>, enough: nat -> bool, m: nat)
    requires FirstStop(step, Reach(step, w, 1), 0, enough, m)
    ensures FirstStop(step, w, 1, enough, m + 1)
  {
    GoesOnShifts(step, w, enough, m);
    forall i: nat | 1 < i < m + 1
      ensures GoesOn(step, w, enough, i)
    {
      GoesOnShifts(step, w, enough, i - 1);
    }
  }

  /** The interpreter signals the end only when no frame is left. */
  lemma EndLeavesNoFrame<S>(p: Program<S>, w: World<S>)
    ensures EndsEmpty(Interpreter(p), w)
  {
  }

  // ----- stepping out ----------------------------------------------------------------------

  /** Where `Out` stops: after its first step if that traps or leaves the frame, and otherwise at
      the first stop among the later steps. */
  ghost predicate OutStop<S>(step: Stepper<S>, w: World<S>, n: nat) {
    if SignalAt(step, w, 0).Err? || Depth(Reach(step, w, 1)) < Depth(w) then n == 1
    else FirstStop(step, w, 1, FewerFrames(Depth(w)), n)
  }

  function OutResult<S>(step: Stepper<S>, w: World<S>, n: nat): Result<RunResult, ()>
    requires n > 0
  {
    if n > 1 then ResultOf(SignalAt(step, w, n - 1))
    else if SignalAt(step, w, 0).Err? then Err(()) else Ok(Stepped)
  }

  /** Where a command stops. */
  ghost predicate StyleStop<S>(step: Stepper<S>, w: World<S>, style: StepStyle, n: nat) {
    match style
    case InstIn => n == 1
    case InstOver => FirstStop(step, w, 0, FewerFrames(Depth(w) + 1), n)
    case Out => OutStop(step, w, n)
  }

  /** The command led from `w` in `n` steps to `after`, and returned `r`. */
  ghost predicate Performed<S>(step: Stepper<S>, w: World<S>, style: StepStyle, n: nat, r: Result<RunResult, ()>, after: World<S>) {
    && n > 0 && StyleStop(step, w, style, n)
    && after == Reach(step, w, n)
    && r == if style.Out? then OutResult(step, w, n) else ResultOf(SignalAt(step, w, n - 1))
  }

  /** The step was taken and gave `Next`. */
  predicate Continues<S>(step: Stepper<S>, w: World<S>, i: nat) {
    i > 0 && SignalAt(step, w, i - 1) == Ok(Next)
  }

  /** Going on as long as the steps give `Next` and at least `limit` frames are left. */
  lemma FirstStopMeaning<S>(step: Stepper<S>, w: World<S>, from: nat, limit: nat, n: nat)
    ensures FirstStop(step, w, from, FewerFrames(limit), n) <==>
            && from < n
            && (forall i: nat :: from < i < n ==> Continues(step, w, i) && |Reach(step, w, i).frames| >= limit)
            && !(Continues(step, w, n) && |Reach(step, w, n).frames| >= limit)
  {
    forall i: nat
      ensures GoesOn(step, w, FewerFrames(limit), i) <==> Continues(step, w, i) && |Reach(step, w, i).frames| >= limit
    {
    }
  }

  /** `InstOver` goes on as long as the steps give `Next` and more frames are left than at its start. */
  lemma OverMeaning<S>(step: Stepper<S>, w: World<S>, n: nat, r: Result<RunResult, ()>, after: World<S>)
    requires Performed(step, w, InstOver, n, r, after)
    ensures n > 0 && after == Reach(step, w, n)
    ensures forall i: nat :: 0 < i < n ==> Continues(step, w, i) && |Reach(step, w, i).frames| > |w.frames|
    ensures !(Continues(step, w, n) && |after.frames| > |w.frames|)
    ensures r == if SignalAt(step, w, n - 1).Err? then Err(()) else Ok(
                match SignalAt(step, w, n - 1).value case Next => Stepped case Breakpoint => AtBreakpoint case End => Finished)
  {
    FirstStopMeaning(step, w, 0, |w.frames| + 1, n);
  }

  /** `Out` goes on as long as the steps give `Next` and no fewer frames are left than at its start,
      where of its first step only an error counts. */
  lemma OutMeaning<S>(step: Stepper<S>, w: World<S>, n: nat, r: Result<RunResult, ()>, after: World<S>)
    requires Performed(step, w, Out, n, r, after)
    ensures n > 0 && after == Reach(step, w, n)
    ensures n == 1 <==> SignalAt(step, w, 0).Err? || |Reach(step, w, 1).frames| < |w.frames|
    ensures forall i: nat :: 1 < i < n ==> Continues(step, w, i) && |Reach(step, w, i).frames| >= |w.frames|
    ensures n > 1 ==> !(Continues(step, w, n) && |after.frames| >= |w.frames|)
    ensures r == if SignalAt(step, w, n - 1).Err? then Err(()) else if n == 1 then Ok(Stepped) else Ok(
                match SignalAt(step, w, n - 1).value case Next => Stepped case Breakpoint => AtBreakpoint case End => Finished)
  {
    FirstStopMeaning(step, w, 1, |w.frames|, n);
  }

  /** The states of a run: one application of the step after the other. */
  lemma RunMeaning<S>(step: Stepper<S>, w: World<S>, n: nat)
    ensures Reach(step, w, 0) == w && Reach(step, w, n + 1) == step(Reach(step, w, n)).1
    ensures SignalAt(step, w, n) == step(Reach(step, w, n)).0
  {
  }

  /** Process stops at the first step that does not give `Next`. */
  lemma ProcessMeaning<S>(step: Stepper<S>, w: World<S>, n: nat)
    ensures FirstStop(step, w, 0, Never(), n)
            <==> n > 0 && !Continues(step, w, n) && forall i: nat :: 0 < i < n ==> Continues(step, w, i)
  {
    forall i: nat | 0 < i <= n
      ensures GoesOn(step, w, Never(), i) <==> Continues(step, w, i)
    {
    }
  }

  /** The loop of `Out` runs from the state after the first step. */
  lemma OutGoesOn<S>(step: Stepper<S>, w: World<S>, m: nat)
    requires SignalAt(step, w, 0).Ok? && Depth(w) <= Depth(Reach(step, w, 1))
    requires m > 0 && FirstStop(step, Reach(step, w, 1), 0, FewerFrames(Depth(w)), m)
    ensures OutStop(step, w, m + 1)
    ensures Reach(step, Reach(step, w, 1), m) == Reach(step, w, m + 1)
    ensures SignalAt(step, Reach(step, w, 1), m - 1) == SignalAt(step, w, m)
  {
    FirstStopShifts(step, w, FewerFrames(Depth(w)), m);
    ReachShifts(step, w, m);
    ReachShifts(step, w, m - 1);
  }

  /** `Out` does what its name says, stopping at the first signal or in the caller, exactly when its
      first step raises no signal; otherwise it misses a breakpoint or the end of the run. */
  lemma OutAsMeantIffFirstIsNext<S>(step: Stepper<S>, w: World<S>, n: nat, m: nat)
    requires OutStop(step, w, n) && FirstStop(step, w, 0, FewerFrames(Depth(w)), m)
    ensures n == m && OutResult(step, w, n) == ResultOf(SignalAt(step, w, m - 1))
            <==> SignalAt(step, w, 0).Err? || SignalAt(step, w, 0) == Ok(Next)
  {
    var enough := FewerFrames(Depth(w));
    if SignalAt(step, w, 0) == Ok(Next) {
      if enough(Depth(Reach(step, w, 1))) {
        assert FirstStop(step, w, 0, enough, 1);
      } else {
        assert FirstStop(step, w, 0, enough, n);
      }
      FirstStopUnique(step, w, 0, enough, n, m);
    } else {
      assert FirstStop(step, w, 0, enough, 1);
      FirstStopUnique(step, w, 0, enough, 1, m);
    }
  }

  // ----- breakpoints -----------------------------------------------------------------------

  /** The next instruction is the start of a source line and the debugger is to stop there. */
  predicate AtLineStart<S>(p: Program<S>, w: World<S>) {
    w.interrupted && p.offset(w.hidden) in p.lineStarts
  }

  /** The function with a breakpoint that an event reports, if any, by the kinds of event. */
  predicate Watches(e: Event, breaksOn: nat -> bool) {
    match e
    case CallInternal(f) => breaksOn(f)
    case CallIndirectWasm(_, reported) => breaksOn(reported)
    case CallIndirectHost(reported) => breaksOn(reported)
    case _ => false
  }

  /** A step's outcome, kind of event by kind: an error exactly for the two that trap, the end exactly
      for a return from or without the last frame, a breakpoint exactly for a source line to stop at or
      a watched call that does not end the run. */
  lemma SignalMeaning<S>(p: Program<S>, w: World<S>)
    ensures var e, r := p.event(w.hidden), ExecuteStep(p, w).0;
            && (r.Err? <==> e == Trap || e == TailCallHostTrap)
            && (r == Ok(End) <==> (e == Return && |w.frames| <= 1) || (e == ReturnNotTaken && |w.frames| == 0))
            && (r == Ok(Breakpoint) <==>
                  && e != Trap && e != TailCallHostTrap
                  && !(e == Return && |w.frames| <= 1) && !(e == ReturnNotTaken && |w.frames| == 0)
                  && ((w.interrupted && p.offset(w.hidden) in p.lineStarts) || Watches(e, p.breaksOn)))
  {
  }

  /** What a step does to the call stack and to the debugger's list, kind of event by kind. */
  lemma StepMeaning<S>(p: Program<S>, w: World<S>)
    ensures var w' := ExecuteStep(p, w).1;
            && w'.hidden == p.after(w.hidden)
            && (w'.interrupted <==> w.interrupted && p.offset(w.hidden) !in p.lineStarts)
            && match p.event(w.hidden)
               case Plain => w'.frames == w.frames && w'.invoked == w.invoked
               case Return => IsPopped(w'.frames, w.frames) && IsPopped(w'.invoked, w.invoked)
               case ReturnNotTaken => w'.frames == w.frames && IsPopped(w'.invoked, w.invoked)
               case CallInternal(f) => w'.frames == w.frames + [f] && w'.invoked == w.invoked + [f]
               case CallImportedWasm(f) => w'.frames == w.frames + [f] && w'.invoked == w.invoked
               case CallImportedHost => w'.frames == w.frames && w'.invoked == w.invoked
               case CallIndirectWasm(f, g) => w'.frames == w.frames + [f] && w'.invoked == w.invoked + [g]
               case CallIndirectHost(g) => w'.frames == w.frames && w'.invoked == w.invoked + [g]
               case TailCallWasm(f) =>
                 && |w'.frames| > 0 && w'.frames[|w'.frames| - 1] == f
                 && IsPopped(w'.frames[..|w'.frames| - 1], w.frames) && w'.invoked == w.invoked
               case TailCallHost => IsPopped(w'.frames, w.frames) && w'.invoked == w.invoked
               case Trap => w'.frames == w.frames && w'.invoked == w.invoked
               case TailCallHostTrap => IsPopped(w'.frames, w.frames) && w'.invoked == w.invoked
  {
  }

  /** The same sequence without its last element; without any, the empty sequence. */
  predicate IsPopped(after: seq<nat>, before: seq<nat>) {
    if |before| == 0 then |after| == 0
    else |after| == |before| - 1 && forall i :: 0 <= i < |after| ==> after[i] == before[i]
  }

  /** Whether `Out` does what its name says can be read off the state it starts in: it does exactly
      if its first instruction traps or else neither returns from the last frame, nor starts a source
      line to stop at, nor calls a watched function. */
  lemma OutAsMeantIffQuietStart<S>(p: Program<S>, w: World<S>, n: nat, m: nat)
    requires OutStop(Interpreter(p), w, n) && FirstStop(Interpreter(p), w, 0, FewerFrames(Depth(w)), m)
    ensures var e := p.event(w.hidden);
            n == m && OutResult(Interpreter(p), w, n) == ResultOf(SignalAt(Interpreter(p), w, m - 1))
            <==> || e == Trap || e == TailCallHostTrap
                 || (&& !(e == Return && |w.frames| <= 1) && !(e == ReturnNotTaken && |w.frames| == 0)
                     && !(w.interrupted && p.offset(w.hidden) in p.lineStarts) && !Watches(e, p.breaksOn))
  {
    OutAsMeantIffFirstIsNext(Interpreter(p), w, n, m);
    SignalMeaning(p, w);
    assert SignalAt(Interpreter(p), w, 0) == ExecuteStep(p, w).0;
  }

  /** A program whose main function 0 calls the watched function 1; both then return. */
  function WatchedCall(): Program<int> {
    Program(s => if s == 0 then CallInternal(1) else Return, s => s + 1, _ => 0, {}, f => f == 1)
  }

  /** From its first instruction `Out` is to stop at the breakpoint, but runs to the end. */
  lemma OutMissesBreakpoint()
    ensures var step, w := Interpreter(WatchedCall()), World(0, [0], [0], false);
            && FirstStop(step, w, 0, FewerFrames(Depth(w)), 1)
            && ResultOf(SignalAt(step, w, 0)) == Ok(AtBreakpoint)
            && OutStop(step, w, 3) && OutResult(step, w, 3) == Ok(Finished)
  {
    var step, w := Interpreter(WatchedCall()), World(0, [0], [0], false);
    assert Reach(step, w, 0) == w;
    assert Reach(step, w, 1) == World(1, [0, 1], [0, 1], false);
    assert Reach(step, w, 2) == World(2, [0], [0], false);
    assert Reach(step, w, 3) == World(3, [], [], false);
    assert !GoesOn(step, w, FewerFrames(1), 1);
    assert GoesOn(step, w, FewerFrames(1), 2);
  }

  lemma {:induction false} InterruptedOnlyFalls<S>(p: Program<S>, w: World<S>, n: nat, m: nat)
    requires n <= m && !Reach(Interpreter(p), w, n).interrupted
    ensures !Reach(Interpreter(p), w, m).interrupted
    decreases m
  {
    if n < m {
      InterruptedOnlyFalls(p, w, n, m - 1);
    }
  }

  /** Until it is interrupted again the debugger stops at the start of a source line at most once. */
  lemma LineStartOnce<S>(p: Program<S>, w: World<S>, n: nat, m: nat)
    requires n < m && AtLineStart(p, Reach(Interpreter(p), w, n))
    ensures !AtLineStart(p, Reach(Interpreter(p), w, m))
  {
    InterruptedOnlyFalls(p, w, n + 1, m);
  }

  // ----- interrupts ------------------------------------------------------------------------

  /** A signal from outside, which may arrive before any step, asks the debugger to stop again. */
  function Interrupted<S>(w: World<S>, raised: bool): World<S> {
    if raised then w.(interrupted := true) else w
  }

  /** The world before the `n`-th step, `raised` telling before which steps a signal arrives. */
  function WorldAt<S>(p: Program<S>, w: World<S>, raised: nat -> bool, n: nat): World<S> {
    Interrupted(if n == 0 then w else ExecuteStep(p, WorldAt(p, w, raised, n - 1)).1, raised(n))
  }

  /** How many of the first `n` steps stop at the start of a source line. */
  function LineStops<S>(p: Program<S>, w: World<S>, raised: nat -> bool, n: nat): nat {
    if n == 0 then 0
    else LineStops(p, w, raised, n - 1) + if AtLineStart(p, WorldAt(p, w, raised, n - 1)) then 1 else 0
  }

  function Raised(raised: nat -> bool, n: nat): nat {
    if n == 0 then 0 else Raised(raised, n - 1) + if raised(n - 1) then 1 else 0
  }

  /** Over every run with signals arriving at any time: the debugger stops at the start of a source
      line at most once for each signal, and once more if it was to stop at the outset. */
  lemma {:induction false} LineStopsArePaid<S>(p: Program<S>, w: World<S>, raised: nat -> bool, n: nat)
    ensures LineStops(p, w, raised, n) + (if WorldAt(p, w, raised, n).interrupted then 1 else 0)
            <= (if w.interrupted then 1 else 0) + Raised(raised, n + 1)
  {
    if n > 0 {
      LineStopsArePaid(p, w, raised, n - 1);
      var before := WorldAt(p, w, raised, n - 1);
      assert ExecuteStep(p, before).1.interrupted <==> before.interrupted && !AtLineStart(p, before);
    }
  }

  // ----- the list of invoked functions -------------------------------------------------------

  /** The debugger lists the functions that are on the call stack. */
  ghost predicate Mirrors<S>(w: World<S>) {
    w.invoked == w.frames
  }

  /** The events that keep a true list true. A call of an imported Wasm function is not reported; an
      indirect call may be reported as another function, and of a host function is never popped; a conditional return is popped
      even if it is not taken; a tail call replaces the frame, or drops it for a host function, whether
      that fails or not, but keeps the listed function. */
  predicate KeepsList(e: Event, frames: seq<nat>) {
    match e
    case CallImportedWasm(_) => false
    case CallIndirectWasm(f, reported) => reported == f
    case CallIndirectHost(_) => false
    case ReturnNotTaken => frames == []
    case TailCallHost => frames == []
    case TailCallHostTrap => frames == []
    case TailCallWasm(f) => frames != [] && frames[|frames| - 1] == f
    case _ => true
  }

  lemma ListAfterStep<S>(p: Program<S>, w: World<S>)
    requires Mirrors(w)
    ensures Mirrors(ExecuteStep(p, w).1) <==> KeepsList(p.event(w.hidden), w.frames)
  {
    var e := p.event(w.hidden);
    if e.TailCallWasm? && w.frames != [] {
      assert w.frames == Pop(w.frames) + [w.frames[|w.frames| - 1]];
    }
    if w.frames != [] {
      assert |Pop(w.frames)| != |w.frames|;
    }
    if e.CallImportedWasm? {
      assert |w.frames + [e.func]| != |w.frames|;
    } else if e.CallIndirectHost? {
      assert |w.frames + [e.reported]| != |w.frames|;
    } else if e.CallIndirectWasm? && e.reported != e.func {
      assert (w.frames + [e.func])[|w.frames|] != (w.frames + [e.reported])[|w.frames|];
    }
  }

  ghost predicate MirrorsAt<S>(p: Program<S>, w: World<S>, k: nat) {
    Mirrors(Reach(Interpreter(p), w, k))
  }

  ghost predicate KeptAt<S>(p: Program<S>, w: World<S>, k: nat) {
    KeepsList(p.event(Reach(Interpreter(p), w, k).hidden), Reach(Interpreter(p), w, k).frames)
  }

  /** Over every run: the list is true in all states up to the `n`-th exactly when every event
      before that keeps it. */
  lemma {:induction false} ListTrueIffKept<S>(p: Program<S>, w: World<S>, n: nat)
    requires Mirrors(w)
    ensures (forall k: nat :: k <= n ==> MirrorsAt(p, w, k)) <==> (forall k: nat :: k < n ==> KeptAt(p, w, k))
  {
    if n == 0 {
      assert MirrorsAt(p, w, 0);
    } else {
      ListTrueIffKept(p, w, n - 1);
      if MirrorsAt(p, w, n - 1) {
        ListAfterStep(p, Reach(Interpreter(p), w, n - 1));
        assert MirrorsAt(p, w, n) <==> KeptAt(p, w, n - 1);
      }
    }
  }

  /** A conditional return that is not taken: the frame stays, its function leaves the list. */
  lemma ConditionalReturnLosesFunction()
    ensures var p: Program<bool> := Program(_ => ReturnNotTaken, s => s, _ => 0, {}, _ => false);
            var w := ExecuteStep(p, World(false, [7], [7], true)).1;
            w.frames == [7] && w.invoked == []
  {
  }
}
