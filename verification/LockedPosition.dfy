/** lab_05/src/app2_threads.c: two threads, each with its own descriptor, that share a file
    position under a mutex.  Lock, seek, read, write, increment and unlock are separate
    steps, and any schedule may interleave them. */
module LockedPosition {
  import opened Mutex

  /** Where a thread is.  `ok` is whether the read returned a byte; the last two places are
      main's after its loop: waiting in pthread_join, and the final newline. */
  datatype Place =
    | Lock | Seek | Read | Write(c: char) | Increment(ok: bool) | Unlock(ok: bool)
    | Join | Newline | Finished

  /** `offset` is the offset of the thread's own descriptor. */
  datatype Thread = Thread(place: Place, offset: nat)

  /** `main` is thread false; `calls` counts the completed calls of outputFile. */
  datatype State = State(filePos: nat, mutex: Owner, main: Thread, other: Thread, out: string, calls: nat)
  {
    function Get(t: bool): Thread { if t then other else main }
    function With(t: bool, th: Thread): State { if t then this.(other := th) else this.(main := th) }
  }

  const Start := State(0, Free, Thread(Lock, 0), Thread(Lock, 0), "", 0)

  // Where a thread goes when its loop ends.
  function AfterLoop(t: bool): Place { if t then Finished else Join }

  /** One step of thread t; a blocked or finished thread stays where it is. */
  function Step(S: string, s: State, t: bool): State {
    var th := s.Get(t);
    match th.place
    case Lock => if s.mutex == Free then s.(mutex := Held(t)).With(t, th.(place := Seek)) else s
    case Seek => s.With(t, Thread(Read, s.filePos))
    case Read =>
      if th.offset < |S| then s.With(t, Thread(Write(S[th.offset]), th.offset + 1))
      else s.With(t, th.(place := Increment(false)))
    case Write(c) => s.(out := s.out + [c]).With(t, th.(place := Increment(true)))
    case Increment(ok) => s.(filePos := s.filePos + 1).With(t, th.(place := Unlock(ok)))
    case Unlock(ok) =>
      s.(mutex := Free, calls := s.calls + 1).With(t, th.(place := if ok then Lock else AfterLoop(t)))
    case Join => if s.other.place.Finished? then s.With(t, th.(place := Newline)) else s
    case Newline => s.(out := s.out + "\n").With(t, th.(place := Finished))
    case Finished => s
  }

  function Run(S: string, s: State, schedule: seq<bool>): State
    decreases |schedule|
  {
    if schedule == [] then s else Run(S, Step(S, s, schedule[0]), schedule[1..])
  }

  ghost predicate Done(s: State) { s.main.place.Finished? && s.other.place.Finished? }

  // ---------------------------------------------------------------- the invariant

  ghost predicate Critical(th: Thread) {
    th.place.Seek? || th.place.Read? || th.place.Write? || th.place.Increment? || th.place.Unlock?
  }

  // The thread's last read failed and the position has been moved past the end for it.
  ghost predicate Failed(th: Thread) {
    th.place == Unlock(false) || th.place.Join? || th.place.Newline? || th.place.Finished?
  }

  ghost function Failures(s: State): nat {
    (if Failed(s.main) then 1 else 0) + if Failed(s.other) then 1 else 0
  }

  // What the thread's place says about the position and the output.
  ghost predicate PlaceOk(S: string, s: State, t: bool) {
    var th := s.Get(t);
    match th.place
    case Read => th.offset == s.filePos
    case Write(c) => s.filePos < |S| && c == S[s.filePos]
    case Increment(ok) => ok <==> s.filePos < |S|
    case Unlock(true) => s.filePos > 0
    case Join => !t
    case Newline => !t && s.other.place.Finished?
    case Finished => !t ==> s.other.place.Finished?
    case _ => true
  }

  // How far the output has got: one byte ahead of the position between write and increment.
  ghost function Written(s: State): nat {
    if s.main.place == Increment(true) || s.other.place == Increment(true) then s.filePos + 1 else s.filePos
  }

  ghost predicate Invariant(S: string, s: State) {
    && (forall t :: s.mutex == Held(t) <==> Critical(s.Get(t)))
    && PlaceOk(S, s, false) && PlaceOk(S, s, true)
    && (if s.filePos < |S| then Failures(s) == 0 else s.filePos == |S| + Failures(s))
    && s.filePos == s.calls + (if s.main.place.Unlock? || s.other.place.Unlock? then 1 else 0)
    && s.out == (if Written(s) < |S| then S[..Written(s)] else S) + if s.main.place.Finished? then "\n" else ""
  }

  lemma StartInvariant(S: string)
    ensures Invariant(S, Start)
  {
  }

  lemma OutputStep(S: string, s: State, t: bool)
    requires Invariant(S, s)
    ensures var n := Step(S, s, t);
            n.out == (if Written(n) < |S| then S[..Written(n)] else S) + if n.main.place.Finished? then "\n" else ""
  {
    if s.Get(t).place.Write? {
      assert S[..s.filePos + 1] == S[..s.filePos] + [S[s.filePos]];
      assert S[..|S|] == S;
    }
  }

  lemma LockStep(S: string, s: State, t: bool)
    requires Invariant(S, s)
    ensures var n := Step(S, s, t); forall u :: n.mutex == Held(u) <==> Critical(n.Get(u))
  {
    assert s.mutex == Held(false) <==> Critical(s.main);
    assert s.mutex == Held(true) <==> Critical(s.other);
  }

  // At most one thread is between lock and unlock.
  lemma Exclusive(S: string, s: State)
    requires Invariant(S, s)
    ensures !(Critical(s.main) && Critical(s.other))
    ensures s.mutex == Free <==> !Critical(s.main) && !Critical(s.other)
  {
    assert s.mutex == Held(false) <==> Critical(s.main);
    assert s.mutex == Held(true) <==> Critical(s.other);
  }

  lemma PlaceStep(S: string, s: State, t: bool)
    requires Invariant(S, s)
    ensures PlaceOk(S, Step(S, s, t), false) && PlaceOk(S, Step(S, s, t), true)
  {
    Exclusive(S, s);
  }

  lemma CountStep(S: string, s: State, t: bool)
    requires Invariant(S, s)
    ensures var n := Step(S, s, t);
            && (if n.filePos < |S| then Failures(n) == 0 else n.filePos == |S| + Failures(n))
            && n.filePos == n.calls + (if n.main.place.Unlock? || n.other.place.Unlock? then 1 else 0)
  {
    Exclusive(S, s);
  }

  /** What every step of every thread keeps. */
  lemma StepInvariant(S: string, s: State, t: bool)
    requires Invariant(S, s)
    ensures Invariant(S, Step(S, s, t))
  {
    LockStep(S, s, t);
    PlaceStep(S, s, t);
    CountStep(S, s, t);
    OutputStep(S, s, t);
  }

  lemma {:induction false} RunInvariant(S: string, s: State, schedule: seq<bool>)
    requires Invariant(S, s)
    ensures Invariant(S, Run(S, s, schedule))
    decreases |schedule|
  {
    if schedule != [] {
      StepInvariant(S, s, schedule[0]);
      RunInvariant(S, Step(S, s, schedule[0]), schedule[1..]);
    }
  }

  // ---------------------------------------------------------------- every run

  /** At every moment of every schedule at most one thread is between lock and unlock, and
      the output is a prefix of the file, or all of it and the final newline; and main is past
      pthread_join only when the other thread has finished. */
  lemma EveryMoment(S: string, schedule: seq<bool>)
    ensures var s := Run(S, Start, schedule);
            && !(Critical(s.main) && Critical(s.other))
            && (s.out <= S || s.out == S + "\n")
            && s.calls <= s.filePos <= |S| + 2
            && (s.main.place.Newline? || s.main.place.Finished? ==> s.other.place.Finished?)
  {
    StartInvariant(S);
    RunInvariant(S, Start, schedule);
    var s := Run(S, Start, schedule);
    assert s.mutex == Held(false) <==> Critical(s.main);
    assert s.mutex == Held(true) <==> Critical(s.other);
  }

  /** Every finished run has written each byte of the file once and in order, in exactly
      |S| + 2 calls of outputFile, and leaves the position at |S| + 2. */
  lemma EveryScheduleOutputsTheFile(S: string, schedule: seq<bool>)
    ensures var s := Run(S, Start, schedule);
            Done(s) ==> s.out == S + "\n" && s.calls == |S| + 2 && s.filePos == |S| + 2
  {
    StartInvariant(S);
    RunInvariant(S, Start, schedule);
  }

  // ---------------------------------------------------------------- progress

  /** Short of the end, some thread can move: there is no deadlock. */
  lemma NoDeadlock(S: string, s: State)
    requires Invariant(S, s) && !Done(s)
    ensures Step(S, s, false) != s || Step(S, s, true) != s
  {
    assert s.mutex == Held(false) <==> Critical(s.main);
    assert s.mutex == Held(true) <==> Critical(s.other);
    if s.Get(false).place.Write? {
      assert |Step(S, s, false).out| > |s.out|;
    }
    if s.Get(true).place.Write? {
      assert |Step(S, s, true).out| > |s.out|;
    }
  }

  function Rank(p: Place): nat {
    match p
    case Lock => 6
    case Seek => 5
    case Read => 4
    case Write(_) => 3
    case Increment(_) => 2
    case Unlock(_) => 1
    case Join => 2
    case Newline => 1
    case Finished => 0
  }

  ghost function Measure(S: string, s: State): int {
    6 * (|S| + 2 - s.calls) + Rank(s.main.place) + Rank(s.other.place)
  }

  /** Every step that changes anything brings the end nearer, so every run has at most
      6|S| + 24 of them. */
  lemma StepDecreases(S: string, s: State, t: bool)
    requires Invariant(S, s)
    ensures Step(S, s, t) != s ==> 0 <= Measure(S, Step(S, s, t)) < Measure(S, s)
    ensures Measure(S, Start) == 6 * |S| + 24
  {
    StepInvariant(S, s, t);
  }

  ghost function Moves(S: string, s: State, schedule: seq<bool>): nat
    decreases |schedule|
  {
    if schedule == [] then 0
    else (if Step(S, s, schedule[0]) != s then 1 else 0) + Moves(S, Step(S, s, schedule[0]), schedule[1..])
  }

  lemma {:induction false} RunBound(S: string, s: State, schedule: seq<bool>)
    requires Invariant(S, s)
    ensures Moves(S, s, schedule) <= Measure(S, s) && Measure(S, Start) == 6 * |S| + 24
    decreases |schedule|
  {
    if schedule != [] {
      var t := schedule[0];
      StepInvariant(S, s, t);
      StepDecreases(S, s, t);
      RunBound(S, Step(S, s, t), schedule[1..]);
    }
  }

  /** Whatever has happened so far, the run can be brought to its end. */
  lemma {:induction false} CanFinish(S: string, s: State) returns (schedule: seq<bool>)
    requires Invariant(S, s)
    ensures Done(Run(S, s, schedule))
    decreases Measure(S, s)
  {
    schedule := [];
    if !Done(s) {
      NoDeadlock(S, s);
      var t := Step(S, s, true) != s;
      StepInvariant(S, s, t);
      StepDecreases(S, s, t);
      var rest := CanFinish(S, Step(S, s, t));
      schedule := [t] + rest;
      assert schedule[1..] == rest;
    }
  }
}
