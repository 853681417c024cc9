/** lab_05/src/app2_threads_right.c: both threads copy the whole file inside one critical
    section each; main writes a newline before it takes the lock and another at the end. */
module WholeFileLock {
  import opened Mutex
  import opened Pieces

  datatype Place = Newline | Lock | Read | Write(c: char) | Unlock | Join | LastNewline | Finished

  datatype Thread = Thread(place: Place, offset: nat)

  /** `main` is thread false; `mark` is how many file bytes had been written when main's
      first newline was. */
  datatype State = State(mutex: Owner, main: Thread, other: Thread, out: string, mark: nat)
  {
    function Get(t: bool): Thread { if t then other else main }
    function With(t: bool, th: Thread): State { if t then this.(other := th) else this.(main := th) }
  }

  const Start := State(Free, Thread(Newline, 0), Thread(Lock, 0), "", 0)

  function Step(S: string, s: State, t: bool): State {
    var th := s.Get(t);
    match th.place
    case Newline => s.(out := s.out + "\n", mark := |s.out|).With(t, th.(place := Lock))
    case Lock => if s.mutex == Free then s.(mutex := Held(t)).With(t, th.(place := Read)) else s
    case Read =>
      if th.offset < |S| then s.With(t, Thread(Write(S[th.offset]), th.offset + 1)) else s.With(t, th.(place := Unlock))
    case Write(c) => s.(out := s.out + [c]).With(t, th.(place := Read))
    case Unlock => s.(mutex := Free).With(t, th.(place := if t then Finished else Join))
    case Join => if s.other.place.Finished? then s.With(t, th.(place := LastNewline)) else s
    case LastNewline => s.(out := s.out + "\n").With(t, th.(place := Finished))
    case Finished => s
  }

  function Run(S: string, s: State, schedule: seq<bool>): State
    decreases |schedule|
  {
    if schedule == [] then s else Run(S, Step(S, s, schedule[0]), schedule[1..])
  }

  ghost predicate Done(s: State) { s.main.place.Finished? && s.other.place.Finished? }

  // ---------------------------------------------------------------- the invariant

  ghost predicate Critical(th: Thread) { th.place.Read? || th.place.Write? || th.place.Unlock? }

  // The bytes a thread has written.
  ghost function Copied(th: Thread): int { if th.place.Write? then th.offset - 1 else th.offset }

  ghost predicate PlaceOk(S: string, th: Thread) {
    && th.offset <= |S|
    && (th.place.Newline? || th.place.Lock? ==> th.offset == 0)
    && (th.place.Write? ==> 0 < th.offset && th.place.c == S[th.offset - 1])
    && (th.place.Unlock? || th.place.Join? || th.place.LastNewline? || th.place.Finished? ==> th.offset == |S|)
  }

  // Byte i of two copies of the file.
  ghost function ByteAt(S: string, i: nat): char
    requires i < 2 * |S|
  {
    if i < |S| then S[i] else S[i - |S|]
  }

  // The first k bytes of two copies.
  ghost function Two(S: string, k: nat): string
    requires k <= 2 * |S|
  {
    if k == 0 then "" else Two(S, k - 1) + [ByteAt(S, k - 1)]
  }

  // The same with a newline after the first m of them.
  ghost function Marked(S: string, m: nat, k: nat): string
    requires m <= k <= 2 * |S|
    decreases k
  {
    if k == m then Two(S, m) + "\n" else Marked(S, m, k - 1) + [ByteAt(S, k - 1)]
  }

  ghost predicate OutputOk(S: string, s: State) {
    var k := Copied(s.main) + Copied(s.other);
    && 0 <= k <= 2 * |S|
    && if s.main.place.Newline? then |s.out| == k && s.out == Two(S, k)
       else s.mark <= k && s.mark <= |S|
            && s.out == if s.main.place.Finished? then Marked(S, s.mark, k) + "\n" else Marked(S, s.mark, k)
  }

  // Everything but the output.
  ghost predicate Control(S: string, s: State) {
    && (s.mutex == Held(false) <==> Critical(s.main)) && (s.mutex == Held(true) <==> Critical(s.other))
    && PlaceOk(S, s.main) && PlaceOk(S, s.other)
    && !s.other.place.Newline? && !s.other.place.Join? && !s.other.place.LastNewline?
    && (s.main.place.LastNewline? || s.main.place.Finished? ==> s.other.place.Finished?)
  }

  ghost predicate Invariant(S: string, s: State) {
    Control(S, s) && OutputOk(S, s)
  }

  lemma StartInvariant(S: string)
    ensures Invariant(S, Start)
  {
  }

  // The byte a thread writes is the next one of the two copies: the other thread has copied
  // nothing yet, or everything.
  lemma WriteStep(S: string, s: State, t: bool)
    requires Invariant(S, s) && s.Get(t).place.Write?
    ensures OutputOk(S, Step(S, s, t))
  {
    var k := Copied(s.main) + Copied(s.other);
    assert Copied(s.Get(!t)) == 0 || Copied(s.Get(!t)) == |S|;
    assert k < 2 * |S| && ByteAt(S, k) == s.Get(t).place.c;
  }

  lemma NewlineStep(S: string, s: State, t: bool)
    requires Invariant(S, s) && (s.Get(t).place.Newline? || s.Get(t).place.LastNewline?)
    ensures OutputOk(S, Step(S, s, t))
  {
  }

  // A step that writes nothing.
  lemma QuietStep(S: string, s: State, t: bool)
    requires Invariant(S, s)
    requires !s.Get(t).place.Write? && !s.Get(t).place.Newline? && !s.Get(t).place.LastNewline?
    ensures OutputOk(S, Step(S, s, t))
  {
    var n := Step(S, s, t);
    assert n.out == s.out && n.mark == s.mark;
    assert Copied(n.main) == Copied(s.main) && Copied(n.other) == Copied(s.other);
  }

  lemma ControlStep(S: string, s: State, t: bool)
    requires Control(S, s)
    ensures Control(S, Step(S, s, t))
  {
  }

  /** What every step of every thread keeps. */
  lemma StepInvariant(S: string, s: State, t: bool)
    requires Invariant(S, s)
    ensures Invariant(S, Step(S, s, t))
  {
    ControlStep(S, s, t);
    if s.Get(t).place.Write? {
      WriteStep(S, s, t);
    } else if s.Get(t).place.Newline? || s.Get(t).place.LastNewline? {
      NewlineStep(S, s, t);
    } else {
      QuietStep(S, s, t);
    }
  }

  lemma {:induction false} RunInvariant(S: string, s: State, schedule: seq<bool>)
    requires Invariant(S, s)
    ensures Invariant(S, Run(S, s, schedule))
    decreases |schedule|
  {
    if schedule != [] {
      StepInvariant(S, s, schedule[0]);
      RunInvariant(S, Step(S, s, schedule[0]), schedule[1..]);
    }
  }

  // ---------------------------------------------------------------- every run, and no fewer

  /** A finished output: two whole copies, main's newline inside or around the first one. */
  function Outcome(S: string, p: nat): string
    requires p <= |S|
  {
    S[..p] + "\n" + S[p..] + S + "\n"
  }

  /** At every moment of every schedule at most one thread is in its critical section, no byte
      of a copy is read before it, and main is past pthread_join only when the other thread
      has finished. */
  lemma EveryMoment(S: string, schedule: seq<bool>)
    ensures var s := Run(S, Start, schedule);
            && !(Critical(s.main) && Critical(s.other))
            && (s.main.place.Newline? || s.main.place.Lock? ==> s.main.offset == 0)
            && (s.other.place.Lock? ==> s.other.offset == 0)
            && (s.main.place.LastNewline? || s.main.place.Finished? ==> s.other.place.Finished?)
  {
    StartInvariant(S);
    RunInvariant(S, Start, schedule);
  }

  /** Every finished run of every schedule has such an output; p is the number of file bytes
      that had been written when main wrote its first newline. */
  lemma EveryScheduleKeepsCopiesApart(S: string, schedule: seq<bool>)
    ensures var s := Run(S, Start, schedule);
            Done(s) ==> s.mark <= |S| && s.out == S[..s.mark] + "\n" + S[s.mark..] + S + "\n"
  {
    StartInvariant(S);
    RunInvariant(S, Start, schedule);
    var s := Run(S, Start, schedule);
    if Done(s) {
      MarkedWhole(S, s.mark);
    }
  }

  lemma {:induction false} TwoIs(S: string, k: nat)
    requires k <= |S|
    ensures Two(S, k) == S[..k]
  {
    if k > 0 {
      TwoIs(S, k - 1);
    }
  }

  lemma {:induction false} MarkedIs(S: string, m: nat, k: nat)
    requires m <= |S| && m <= k <= 2 * |S|
    ensures Marked(S, m, k) == if k <= |S| then S[..m] + "\n" + S[m..k] else S[..m] + "\n" + S[m..] + S[..k - |S|]
    decreases k
  {
    if k == m {
      TwoIs(S, m);
      assert S[..m] + "\n" + S[m..m] == S[..m] + "\n";
    } else {
      MarkedIs(S, m, k - 1);
      if k <= |S| {
        assert S[m..k] == S[m..k - 1] + [S[k - 1]];
      } else {
        var head := S[..m] + "\n" + S[m..];
        assert S[m..|S|] == S[m..];
        assert head + S[..k - 1 - |S|] + [S[k - 1 - |S|]] == head + S[..k - |S|];
        assert k - 1 == |S| ==> head + S[..k - 1 - |S|] == head;
      }
    }
  }

  lemma MarkedWhole(S: string, p: nat)
    requires p <= |S|
    ensures Marked(S, p, 2 * |S|) + "\n" == Outcome(S, p)
  {
    MarkedIs(S, p, 2 * |S|);
    assert S[..2 * |S| - |S|] == S;
    if |S| == 0 {
      assert S[p..2 * |S|] == [] && S[p..] == [] && S == [];
      RightNil(S[..p] + "\n");
    }
  }

  function Repeat(t: bool, n: nat): seq<bool> { seq(n, _ => t) }

  lemma {:induction false} RunAppend(S: string, s: State, a: seq<bool>, b: seq<bool>)
    ensures Run(S, s, a + b) == Run(S, Run(S, s, a), b)
    decreases |a|
  {
    if a == [] {
      assert a + b == b;
    } else {
      assert (a + b)[0] == a[0] && (a + b)[1..] == a[1..] + b;
      RunAppend(S, Step(S, s, a[0]), a[1..], b);
    }
  }

  lemma RunOne(S: string, s: State, t: bool)
    ensures Run(S, s, [t]) == Step(S, s, t)
  {
    assert [t][1..] == [];
  }

  // A thread alone in its loop copies n bytes in 2n steps.
  lemma {:induction false} CopyBytes(S: string, s: State, t: bool, n: nat)
    requires s.Get(t).place.Read? && s.Get(t).offset + n <= |S|
    ensures var i := s.Get(t).offset;
            Run(S, s, Repeat(t, 2 * n)) == s.(out := s.out + S[i..i + n]).With(t, Thread(Read, i + n))
    decreases n
  {
    var i := s.Get(t).offset;
    if n == 0 {
      assert s.out + S[i..i] == s.out;
    } else {
      var u := Step(S, Step(S, s, t), t);
      var rest := Repeat(t, 2 * (n - 1));
      assert Repeat(t, 2 * n) == [t] + ([t] + rest);
      RunAppend(S, s, [t], [t] + rest);
      RunAppend(S, Step(S, s, t), [t], rest);
      RunOne(S, s, t);
      RunOne(S, Step(S, s, t), t);
      CopyBytes(S, u, t, n - 1);
      assert s.out + [S[i]] + S[i + 1..i + n] == s.out + S[i..i + n];
    }
  }

  // The steps around a copy: taking the lock, and seeing the end of the file and unlocking.
  lemma TakeLock(S: string, s: State, t: bool)
    requires s.Get(t).place.Lock? && s.mutex == Free
    ensures Run(S, s, [t]) == s.(mutex := Held(t)).With(t, s.Get(t).(place := Read))
  {
    RunOne(S, s, t);
  }

  lemma LeaveLock(S: string, s: State, t: bool)
    requires s.Get(t).place.Read? && s.Get(t).offset == |S|
    ensures Run(S, s, [t, t]) == s.(mutex := Free).With(t, s.Get(t).(place := if t then Finished else Join))
  {
    assert [t, t] == [t] + [t];
    RunAppend(S, s, [t], [t]);
    RunOne(S, s, t);
    RunOne(S, Step(S, s, t), t);
  }

  // The other thread has the lock and has copied p bytes.
  lemma FirstPart(S: string, p: nat) returns (schedule: seq<bool>)
    requires p <= |S|
    ensures Run(S, Start, schedule) == State(Held(true), Thread(Newline, 0), Thread(Read, p), S[..p], 0)
  {
    var s1 := Run(S, Start, [true]);
    TakeLock(S, Start, true);
    CopyBytes(S, s1, true, p);
    RunAppend(S, Start, [true], Repeat(true, 2 * p));
    assert "" + S[0..p] == S[..p];
    return [true] + Repeat(true, 2 * p);
  }

  // Main's newline comes next, and then the other thread finishes its copy.
  lemma SecondPart(S: string, p: nat, s: State) returns (schedule: seq<bool>)
    requires p <= |S| && s == State(Held(true), Thread(Newline, 0), Thread(Read, p), S[..p], 0)
    ensures Run(S, s, schedule) == State(Free, Thread(Lock, 0), Thread(Finished, |S|), S[..p] + "\n" + S[p..], p)
  {
    var copy := Repeat(true, 2 * (|S| - p));
    var s1 := Run(S, s, [false]);
    RunOne(S, s, false);
    var s2 := Run(S, s1, copy);
    CopyBytes(S, s1, true, |S| - p);
    LeaveLock(S, s2, true);
    RunAppend(S, s, [false], copy + [true, true]);
    RunAppend(S, s1, copy, [true, true]);
    assert S[p..|S|] == S[p..];
    return [false] + (copy + [true, true]);
  }

  // Main copies the file and writes the last newline.
  lemma ThirdPart(S: string, s: State) returns (schedule: seq<bool>)
    requires s.mutex == Free && s.main == Thread(Lock, 0) && s.other.place.Finished?
    ensures Done(Run(S, s, schedule)) && Run(S, s, schedule).out == s.out + S + "\n"
  {
    var copy := Repeat(false, 2 * |S|);
    var s1 := Run(S, s, [false]);
    TakeLock(S, s, false);
    var s2 := Run(S, s1, copy);
    CopyBytes(S, s1, false, |S|);
    var s3 := Run(S, s2, [false, false]);
    LeaveLock(S, s2, false);
    var s4 := Run(S, s3, [false]);
    RunOne(S, s3, false);
    RunOne(S, s4, false);
    RunAppend(S, s3, [false], [false]);
    RunAppend(S, s2, [false, false], [false] + [false]);
    RunAppend(S, s1, copy, [false, false] + ([false] + [false]));
    RunAppend(S, s, [false], copy + ([false, false] + ([false] + [false])));
    assert S[0..|S|] == S;
    return [false] + (copy + ([false, false] + ([false] + [false])));
  }

  /** Each of these outputs is produced by some schedule, so the claim cannot be sharpened. */
  lemma EveryOutcomeHappens(S: string, p: nat) returns (schedule: seq<bool>)
    requires p <= |S|
    ensures Done(Run(S, Start, schedule)) && Run(S, Start, schedule).out == S[..p] + "\n" + S[p..] + S + "\n"
  {
    var a := FirstPart(S, p);
    var s1 := Run(S, Start, a);
    var b := SecondPart(S, p, s1);
    var s2 := Run(S, s1, b);
    var c := ThirdPart(S, s2);
    RunAppend(S, Start, a, b + c);
    RunAppend(S, s1, b, c);
    return a + (b + c);
  }

  // ---------------------------------------------------------------- progress

  /** Short of the end, some thread can move: there is no deadlock. */
  lemma NoDeadlock(S: string, s: State)
    requires Invariant(S, s) && !Done(s)
    ensures Step(S, s, false) != s || Step(S, s, true) != s
  {
  }

  function Rank(p: Place): nat {
    match p
    case Newline => 7
    case Lock => 6
    case Read => 4
    case Write(_) => 5
    case Unlock => 3
    case Join => 2
    case LastNewline => 1
    case Finished => 0
  }

  ghost function Measure(S: string, s: State): int {
    2 * (|S| - s.main.offset) + Rank(s.main.place) + 2 * (|S| - s.other.offset) + Rank(s.other.place)
  }

  /** Every step that changes anything brings the end nearer. */
  lemma StepDecreases(S: string, s: State, t: bool)
    requires Invariant(S, s)
    ensures Step(S, s, t) != s ==> 0 <= Measure(S, Step(S, s, t)) < Measure(S, s)
    ensures Measure(S, Start) == 4 * |S| + 13
  {
    ControlStep(S, s, t);
  }

  /** Whatever has happened so far, the run can be brought to its end. */
  lemma {:induction false} CanFinish(S: string, s: State) returns (schedule: seq<bool>)
    requires Invariant(S, s)
    ensures Done(Run(S, s, schedule))
    decreases Measure(S, s)
  {
    schedule := [];
    if !Done(s) {
      NoDeadlock(S, s);
      var t := Step(S, s, true) != s;
      StepInvariant(S, s, t);
      StepDecreases(S, s, t);
      var rest := CanFinish(S, Step(S, s, t));
      schedule := [t] + rest;
      assert schedule[1..] == rest;
    }
  }
}
