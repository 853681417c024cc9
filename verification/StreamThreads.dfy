/** lab_05/src/app1_threads.c: two threads, each with its own buffered stream over one
    shared descriptor, under every schedule.

    A step is one action another thread can observe or interleave with: a refill of a stream
    (one read of the shared offset), taking or skipping a buffered byte, or printing. */
module StreamThreads {
  import opened OpenFiles

  predicate IsSpace(c: char) {
    c == ' ' || c == '\t' || c == '\n' || c == 11 as char || c == 12 as char || c == '\r'
  }

  /** Where a thread is in its loop: before "%c", in the blanks after it with a byte in hand,
      about to print that byte, or out of the loop. */
  datatype Phase = Convert | SkipSpace(held: nat) | Print(held: nat) | Done

  /** The positions lo..hi are in the stream's buffer and not yet consumed. */
  datatype Thread = Thread(phase: Phase, lo: nat, hi: nat)

  datatype Out = Out(thread: bool, pos: nat)

  /** `main` is thread false; bytes are named by their file positions. */
  datatype State = State(offset: nat, main: Thread, other: Thread, out: seq<Out>, skipped: set<nat>)
  {
    function Get(t: bool): Thread { if t then other else main }
    function With(t: bool, th: Thread): State { if t then this.(other := th) else this.(main := th) }
  }

  const Start := State(0, Thread(Convert, 0, 0), Thread(Convert, 0, 0), [], {})

  /** A refill of thread t's buffer; at the end of the file the phase changes to `atEnd`. */
  function Refill(S: string, B: nat, s: State, t: bool, atEnd: Phase): State {
    var th := s.Get(t);
    var stop := Min(s.offset + B, |S|);
    if stop <= s.offset then s.With(t, th.(phase := atEnd))
    else s.(offset := stop).With(t, Thread(th.phase, s.offset, stop))
  }

  /** One step of thread t; a finished thread stays as it is. */
  function Step(S: string, B: nat, s: State, t: bool): State {
    var th := s.Get(t);
    match th.phase
    case Convert =>
      if th.lo < th.hi then s.With(t, Thread(SkipSpace(th.lo), th.lo + 1, th.hi)) else Refill(S, B, s, t, Done)
    case SkipSpace(p) =>
      if th.lo >= th.hi then Refill(S, B, s, t, Print(p))
      else if th.lo < |S| && IsSpace(S[th.lo]) then s.(skipped := s.skipped + {th.lo}).With(t, th.(lo := th.lo + 1))
      else s.With(t, th.(phase := Print(p)))
    case Print(p) => s.(out := s.out + [Out(t, p)]).With(t, th.(phase := Convert))
    case Done => s
  }

  function Run(S: string, B: nat, s: State, schedule: seq<bool>): State
    decreases |schedule|
  {
    if schedule == [] then s else Run(S, B, Step(S, B, s, schedule[0]), schedule[1..])
  }

  // ---------------------------------------------------------------- the invariant

  ghost predicate Holding(th: Thread) { th.phase.SkipSpace? || th.phase.Print? }

  // Position p is in thread th's hands: in its buffer, or converted and not yet printed.
  ghost predicate Holds(th: Thread, p: nat) {
    th.lo <= p < th.hi || (Holding(th) && th.phase.held == p)
  }

  ghost predicate Printed(s: State, p: nat) { exists i :: 0 <= i < |s.out| && s.out[i].pos == p }

  /** Every position fetched so far is in exactly one place. */
  ghost predicate Accounted(s: State, p: nat) {
    && (p < s.offset <==> Printed(s, p) || p in s.skipped || Holds(s.main, p) || Holds(s.other, p))
    && !(Holds(s.main, p) && Holds(s.other, p))
    && (Printed(s, p) || p in s.skipped ==> !Holds(s.main, p) && !Holds(s.other, p))
    && !(Printed(s, p) && p in s.skipped)
  }

  ghost predicate AllAccounted(s: State) {
    forall p: nat :: Accounted(s, p)
  }

  ghost predicate ThreadOk(S: string, s: State, t: bool) {
    var th := s.Get(t);
    && th.lo <= th.hi <= s.offset
    && (Holding(th) ==> th.phase.held < th.lo)
    && (th.phase.Done? ==> th.lo == th.hi && s.offset == |S|)
    && (forall i :: 0 <= i < |s.out| && s.out[i].thread == t ==>
          s.out[i].pos < th.lo && (Holding(th) ==> s.out[i].pos < th.phase.held))
  }

  /** No byte is printed twice, and each thread prints its bytes in file order. */
  ghost predicate OutOk(s: State) {
    && (forall i, j :: 0 <= i < j < |s.out| ==> s.out[i].pos != s.out[j].pos)
    && (forall i, j :: 0 <= i < j < |s.out| && s.out[i].thread == s.out[j].thread ==> s.out[i].pos < s.out[j].pos)
  }

  ghost predicate Invariant(S: string, s: State) {
    && s.offset <= |S|
    && ThreadOk(S, s, false) && ThreadOk(S, s, true)
    && AllAccounted(s) && OutOk(s)
    && (forall p :: p in s.skipped ==> p < |S| && IsSpace(S[p]))
  }

  lemma StartInvariant(S: string)
    ensures Invariant(S, Start)
  {
  }

  lemma RefillInvariant(S: string, B: nat, s: State, t: bool, atEnd: Phase)
    requires B > 0 && Invariant(S, s) && s.Get(t).lo == s.Get(t).hi
    requires || (s.Get(t).phase.Convert? && atEnd == Done)
             || (s.Get(t).phase.SkipSpace? && atEnd == Print(s.Get(t).phase.held))
    ensures Invariant(S, Refill(S, B, s, t, atEnd))
  {
    var n := Refill(S, B, s, t, atEnd);
    assert n.out == s.out && n.skipped == s.skipped;
    forall p: nat ensures Accounted(n, p) {
      assert Accounted(s, p);
      assert Printed(n, p) <==> Printed(s, p);
    }
  }

  lemma PrintAccounts(S: string, B: nat, s: State, t: bool)
    requires Invariant(S, s) && s.Get(t).phase.Print?
    ensures AllAccounted(Step(S, B, s, t))
  {
    var n, p0 := Step(S, B, s, t), s.Get(t).phase.held;
    assert n.out == s.out + [Out(t, p0)];
    assert Accounted(s, p0);
    forall p: nat ensures Accounted(n, p) {
      assert Accounted(s, p);
      if p == p0 {
        assert n.out[|s.out|].pos == p;
      }
      if Printed(s, p) {
        var i :| 0 <= i < |s.out| && s.out[i].pos == p;
        assert n.out[i].pos == p;
      }
    }
  }

  // The printed byte is new, and comes after those the thread has printed before.
  lemma PrintOrders(S: string, B: nat, s: State, t: bool)
    requires Invariant(S, s) && s.Get(t).phase.Print?
    ensures OutOk(Step(S, B, s, t))
  {
    var n, p0 := Step(S, B, s, t), s.Get(t).phase.held;
    assert n.out == s.out + [Out(t, p0)];
    assert Accounted(s, p0);
    assert forall i :: 0 <= i < |s.out| ==> Printed(s, s.out[i].pos);
  }

  lemma PrintThreads(S: string, B: nat, s: State, t: bool)
    requires Invariant(S, s) && s.Get(t).phase.Print?
    ensures ThreadOk(S, Step(S, B, s, t), false) && ThreadOk(S, Step(S, B, s, t), true)
  {
    assert Step(S, B, s, t).out == s.out + [Out(t, s.Get(t).phase.held)];
  }

  lemma PrintInvariant(S: string, B: nat, s: State, t: bool)
    requires Invariant(S, s) && s.Get(t).phase.Print?
    ensures Invariant(S, Step(S, B, s, t))
  {
    PrintAccounts(S, B, s, t);
    PrintOrders(S, B, s, t);
    PrintThreads(S, B, s, t);
  }

  lemma TakeAccounts(S: string, B: nat, s: State, t: bool)
    requires Invariant(S, s) && s.Get(t).lo < s.Get(t).hi && (s.Get(t).phase.Convert? || s.Get(t).phase.SkipSpace?)
    ensures AllAccounted(Step(S, B, s, t))
  {
    var n := Step(S, B, s, t);
    assert n.out == s.out;
    forall p: nat ensures Accounted(n, p) {
      assert Accounted(s, p);
      assert Printed(n, p) <==> Printed(s, p);
    }
  }

  lemma ConvertInvariant(S: string, B: nat, s: State, t: bool)
    requires Invariant(S, s) && s.Get(t).lo < s.Get(t).hi && s.Get(t).phase.Convert?
    ensures Invariant(S, Step(S, B, s, t))
  {
    TakeAccounts(S, B, s, t);
    assert Step(S, B, s, t).out == s.out && Step(S, B, s, t).skipped == s.skipped;
    assert Accounted(s, s.Get(t).lo);
    assert forall i :: 0 <= i < |s.out| ==> Printed(s, s.out[i].pos);
  }

  lemma SkipInvariant(S: string, B: nat, s: State, t: bool)
    requires Invariant(S, s) && s.Get(t).lo < s.Get(t).hi && s.Get(t).phase.SkipSpace?
    ensures Invariant(S, Step(S, B, s, t))
  {
    TakeAccounts(S, B, s, t);
    assert Step(S, B, s, t).out == s.out;
  }

  /** What every step of every thread keeps. */
  lemma StepInvariant(S: string, B: nat, s: State, t: bool)
    requires B > 0 && Invariant(S, s)
    ensures Invariant(S, Step(S, B, s, t))
  {
    var th := s.Get(t);
    match th.phase
    case Convert =>
      if th.lo < th.hi { ConvertInvariant(S, B, s, t); } else { RefillInvariant(S, B, s, t, Done); }
    case SkipSpace(p) =>
      if th.lo < th.hi { SkipInvariant(S, B, s, t); } else { RefillInvariant(S, B, s, t, Print(p)); }
    case Print(_) => PrintInvariant(S, B, s, t);
    case Done =>
  }

  lemma {:induction false} RunInvariant(S: string, B: nat, s: State, schedule: seq<bool>)
    requires B > 0 && Invariant(S, s)
    ensures Invariant(S, Run(S, B, s, schedule))
    decreases |schedule|
  {
    if schedule != [] {
      StepInvariant(S, B, s, schedule[0]);
      RunInvariant(S, B, Step(S, B, s, schedule[0]), schedule[1..]);
    }
  }

  // ---------------------------------------------------------------- what a finished run has done

  /** The white-space characters of section 7.4.1.10 of ISO C11: blank, tab, newline, vertical
      tab, form feed, carriage return. */
  lemma SpacesAre(c: char)
    ensures IsSpace(c) <==> c in [' ', '\t', '\n', 11 as char, 12 as char, '\r']
  {
  }

  /** For every file, buffer size and schedule: no byte is delivered twice, each thread delivers
      its bytes in file order, and when both threads have left their loops every byte that is
      not white space has been delivered. */
  lemma EveryScheduleDelivers(S: string, B: nat, schedule: seq<bool>)
    requires B > 0
    ensures var s := Run(S, B, Start, schedule);
            && OutOk(s)
            && (forall p: nat :: Printed(s, p) ==> p < |S|)
            && (s.main.phase.Done? && s.other.phase.Done? ==>
                  forall p: nat :: p < |S| && S[p] !in [' ', '\t', '\n', 11 as char, 12 as char, '\r'] ==>
                    Printed(s, p))
  {
    StartInvariant(S);
    RunInvariant(S, B, Start, schedule);
    var s := Run(S, B, Start, schedule);
    forall p: nat ensures Printed(s, p) ==> p < |S| {
      assert Accounted(s, p);
    }
    if s.main.phase.Done? && s.other.phase.Done? {
      forall p: nat | p < |S| && S[p] !in [' ', '\t', '\n', 11 as char, 12 as char, '\r'] ensures Printed(s, p) {
        SpacesAre(S[p]);
        assert Accounted(s, p);
      }
    }
  }

  /** White-space-free content: the finished output is exactly the file's positions. */
  lemma WhiteSpaceFree(S: string, B: nat, schedule: seq<bool>)
    requires B > 0 && forall p :: 0 <= p < |S| ==> S[p] !in [' ', '\t', '\n', 11 as char, 12 as char, '\r']
    ensures var s := Run(S, B, Start, schedule);
            s.main.phase.Done? && s.other.phase.Done? ==> forall p: nat :: Printed(s, p) <==> p < |S|
  {
    EveryScheduleDelivers(S, B, schedule);
  }

  // ---------------------------------------------------------------- white space is skipped

  ghost predicate HasPrinted(s: State, t: bool) { exists i :: 0 <= i < |s.out| && s.out[i].thread == t }

  // The next byte of the thread's stream is no white space, or the file is at its end.
  ghost predicate PastSpace(S: string, s: State, th: Thread) {
    && (th.lo < th.hi ==> th.lo < |S| && !IsSpace(S[th.lo]))
    && (th.lo >= th.hi ==> s.offset == |S|)
  }

  /** A thread that has converted a byte has skipped the white space after it before it prints,
      and so meets none at its next conversion. */
  ghost predicate SpaceOk(S: string, s: State, t: bool) {
    var th := s.Get(t);
    && (th.phase.Print? || (th.phase.Convert? && HasPrinted(s, t)) ==> PastSpace(S, s, th))
    && (Holding(th) && HasPrinted(s, t) ==> th.phase.held < |S| && !IsSpace(S[th.phase.held]))
  }

  ghost predicate LaterNotSpace(S: string, s: State) {
    forall i, j :: 0 <= i < j < |s.out| && s.out[i].thread == s.out[j].thread ==>
      s.out[j].pos < |S| && !IsSpace(S[s.out[j].pos])
  }

  ghost predicate SpacesOk(S: string, s: State) {
    SpaceOk(S, s, false) && SpaceOk(S, s, true) && LaterNotSpace(S, s)
  }

  lemma RefillSpaces(S: string, B: nat, s: State, t: bool, atEnd: Phase)
    requires B > 0 && Invariant(S, s) && SpacesOk(S, s) && s.Get(t).lo == s.Get(t).hi
    requires || (s.Get(t).phase.Convert? && atEnd == Done)
             || (s.Get(t).phase.SkipSpace? && atEnd == Print(s.Get(t).phase.held))
    ensures SpacesOk(S, Refill(S, B, s, t, atEnd))
  {
    var n := Refill(S, B, s, t, atEnd);
    assert n.out == s.out && n.Get(!t) == s.Get(!t);
    assert forall u :: HasPrinted(n, u) <==> HasPrinted(s, u);
  }

  lemma PrintSpaces(S: string, B: nat, s: State, t: bool)
    requires Invariant(S, s) && SpacesOk(S, s) && s.Get(t).phase.Print?
    ensures SpacesOk(S, Step(S, B, s, t))
  {
    var n, p := Step(S, B, s, t), s.Get(t).phase.held;
    assert n.out == s.out + [Out(t, p)] && n.Get(!t) == s.Get(!t);
    if HasPrinted(n, !t) {
      var i :| 0 <= i < |n.out| && n.out[i].thread == !t;
      assert s.out[i].thread == !t;
    }
    forall i, j | 0 <= i < j < |n.out| && n.out[i].thread == n.out[j].thread
      ensures n.out[j].pos < |S| && !IsSpace(S[n.out[j].pos])
    {
      if j == |s.out| {
        assert s.out[i].thread == t && HasPrinted(s, t);
      }
    }
  }

  lemma TakeSpaces(S: string, B: nat, s: State, t: bool)
    requires Invariant(S, s) && SpacesOk(S, s)
    requires s.Get(t).lo < s.Get(t).hi && (s.Get(t).phase.Convert? || s.Get(t).phase.SkipSpace?)
    ensures SpacesOk(S, Step(S, B, s, t))
  {
    var n := Step(S, B, s, t);
    assert n.out == s.out && n.Get(!t) == s.Get(!t);
    assert forall u :: HasPrinted(n, u) <==> HasPrinted(s, u);
  }

  lemma StepSpaces(S: string, B: nat, s: State, t: bool)
    requires B > 0 && Invariant(S, s) && SpacesOk(S, s)
    ensures SpacesOk(S, Step(S, B, s, t))
  {
    var th := s.Get(t);
    match th.phase
    case Convert =>
      if th.lo < th.hi { TakeSpaces(S, B, s, t); } else { RefillSpaces(S, B, s, t, Done); }
    case SkipSpace(p) =>
      if th.lo < th.hi { TakeSpaces(S, B, s, t); } else { RefillSpaces(S, B, s, t, Print(p)); }
    case Print(_) => PrintSpaces(S, B, s, t);
    case Done =>
  }

  lemma {:induction false} RunSpaces(S: string, B: nat, s: State, schedule: seq<bool>)
    requires B > 0 && Invariant(S, s) && SpacesOk(S, s)
    ensures SpacesOk(S, Run(S, B, s, schedule))
    decreases |schedule|
  {
    if schedule != [] {
      StepInvariant(S, B, s, schedule[0]);
      StepSpaces(S, B, s, schedule[0]);
      RunSpaces(S, B, Step(S, B, s, schedule[0]), schedule[1..]);
    }
  }

  /** Under every schedule a thread delivers no white space, except as its very first byte. */
  lemma EveryScheduleSkips(S: string, B: nat, schedule: seq<bool>, i: nat, j: nat)
    requires B > 0
    requires var out := Run(S, B, Start, schedule).out; i < j < |out| && out[i].thread == out[j].thread
    ensures var p := Run(S, B, Start, schedule).out[j].pos;
            p < |S| && S[p] !in [' ', '\t', '\n', 11 as char, 12 as char, '\r']
  {
    StartInvariant(S);
    RunSpaces(S, B, Start, schedule);
    SpacesAre(S[Run(S, B, Start, schedule).out[j].pos]);
  }

  /** A thread whose buffer is empty fetches the next B bytes at the shared offset, or what is left
      of the file; at its end, its loop ends. */
  lemma FetchesBlock(S: string, B: nat, s: State, t: bool)
    requires B > 0 && Invariant(S, s) && s.Get(t).phase.Convert? && s.Get(t).lo == s.Get(t).hi
    ensures var n := Step(S, B, s, t);
            if s.offset == |S| then n == s.With(t, s.Get(t).(phase := Done))
            else n.Get(t) == Thread(Convert, s.offset, n.offset) && n.Get(!t) == s.Get(!t) && n.out == s.out
                 && n.offset == if s.offset + B < |S| then s.offset + B else |S|
  {
  }

  // ---------------------------------------------------------------- termination

  function Rank(ph: Phase): nat {
    match ph
    case Convert => 1
    case SkipSpace(_) => 3
    case Print(_) => 2
    case Done => 0
  }

  ghost function ThreadMeasure(th: Thread): nat
    requires th.lo <= th.hi
  {
    3 * (th.hi - th.lo) + Rank(th.phase)
  }

  ghost function Measure(S: string, s: State): nat
    requires s.offset <= |S| && s.main.lo <= s.main.hi && s.other.lo <= s.other.hi
  {
    4 * (|S| - s.offset) + ThreadMeasure(s.main) + ThreadMeasure(s.other)
  }

  /** Every step of a thread still in its loop makes progress. */
  lemma StepDecreases(S: string, B: nat, s: State, t: bool)
    requires B > 0 && Invariant(S, s) && !s.Get(t).phase.Done?
    ensures Invariant(S, Step(S, B, s, t)) && Measure(S, Step(S, B, s, t)) < Measure(S, s)
  {
    StepInvariant(S, B, s, t);
  }

  /** The steps of a schedule taken by threads that were still in their loops. */
  ghost function Active(S: string, B: nat, s: State, schedule: seq<bool>): nat
    decreases |schedule|
  {
    if schedule == [] then 0
    else (if s.Get(schedule[0]).phase.Done? then 0 else 1) + Active(S, B, Step(S, B, s, schedule[0]), schedule[1..])
  }

  /** No run has more than 4|S| + 2 active steps, whatever the schedule. */
  lemma {:induction false} RunBound(S: string, B: nat, s: State, schedule: seq<bool>)
    requires B > 0 && Invariant(S, s)
    ensures Active(S, B, s, schedule) <= Measure(S, s) && Measure(S, Start) == 4 * |S| + 2
    decreases |schedule|
  {
    if schedule != [] {
      var t := schedule[0];
      StepInvariant(S, B, s, t);
      if !s.Get(t).phase.Done? {
        StepDecreases(S, B, s, t);
      }
      RunBound(S, B, Step(S, B, s, t), schedule[1..]);
    }
  }

  /** Whatever has happened so far, the run can be brought to its end. */
  lemma {:induction false} CanFinish(S: string, B: nat, s: State) returns (schedule: seq<bool>)
    requires B > 0 && Invariant(S, s)
    ensures var e := Run(S, B, s, schedule); e.main.phase.Done? && e.other.phase.Done?
    decreases Measure(S, s)
  {
    schedule := [];
    if !s.main.phase.Done? || !s.other.phase.Done? {
      var t := s.main.phase.Done?;
      StepDecreases(S, B, s, t);
      var rest := CanFinish(S, B, Step(S, B, s, t));
      schedule := [t] + rest;
      assert schedule[1..] == rest;
    }
  }
}
