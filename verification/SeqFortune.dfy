/** The byte buffer of lab_04/part2/seqfile.c: the same layout as fortune.c, but the length
    is taken before the wrap-around, so the wrap itself does not advance. */
module SeqFortune {
  import opened Arithmetic
  import opened Pieces
  import opened Segments

  class Module {
    const max: nat
    const buffer: array<char>
    var readInd: nat
    var writeInd: nat
    ghost var view: Abs

    /** As for fortune.c, and every byte from the write index on is still zero. */
    ghost predicate Valid()
      reads this, buffer
    {
      && buffer.Length == max > 0 && max + 1 < WORD
      && writeInd <= max && buffer[..writeInd] == Flat(view.segs)
      && (forall k :: writeInd <= k < max ==> buffer[k] == NUL)
      && Proper(view) && readInd == Position(view)
    }

    constructor (max: nat)
      requires 0 < max < WORD - 1
      ensures Valid() && view == Empty && this.max == max
    {
      this.max := max;
      this.buffer := new char[max](_ => NUL);
      readInd, writeInd := 0, 0;
      view := Empty;
      new;
      StartEnds([]);
    }

    /** writeFortune, for any data at all. */
    method Write(data: string) returns (r: Outcome)
      requires Valid()
      modifies this, buffer
      ensures Valid()
      ensures r == if !Accepted(max, old(writeInd), |data|) then Returned(-28)
                   else if InBounds(max, old(writeInd), |data|) then Returned(|data|) else Overrun
      ensures view == if r == Returned(|data|) then Stored(old(view), data) else old(view)
      ensures r != Returned(|data|) ==> buffer[..] == old(buffer[..])
    {
      if !Accepted(max, writeInd, |data|) {
        return Returned(-ENOSPC);
      }
      if !InBounds(max, writeInd, |data|) {
        return Overrun;
      }
      Store(data);
      return Returned(|data|);
    }

    // The part of writeFortune after the check.
    method Store(data: string)
      requires Valid() && InBounds(max, writeInd, |data|)
      modifies this, buffer
      ensures Valid() && view == Stored(old(view), data)
    {
      WriteStores(view, data);
      writeInd := StoreRecord(buffer, writeInd, data);
      view := Stored(view, data);
    }

    /** showFortune; `out` is what is printed.  strlen is called at the read index; when there
        is no byte there the source reads outside the buffer, and the model stops. */
    method Show() returns (overrun: bool, out: string)
      requires Valid()
      modifies this`readInd, this`view
      ensures Valid() && (overrun <==> !Inside(old(view), max))
      ensures overrun ==> out == "" && view == old(view)
      ensures !overrun ==> out == Shown(old(view)) && view == Next(old(view))
    {
      if readInd >= max {
        return true, "";
      }
      ghost var s := buffer[..];
      assert s[..writeInd] == Flat(view.segs);
      var len := StringLength();
      if readInd >= writeInd {
        readInd := 0;
        view := Rewound(view);
        StartEnds(view.segs);
      }
      overrun := false;
      out := CurrentString();
      if len > 0 {
        readInd := readInd + len + 1;
        view := Abs(view.segs, view.cursor + 1, 0);
      }
    }

    // strlen(buffer + readInd), with what the index's place says about the rest of show.
    method StringLength() returns (len: nat)
      requires Valid() && readInd < max
      ensures len == |Text(view)| && (readInd >= writeInd <==> view.cursor == |view.segs|)
      ensures len > 0 ==> view.cursor < |view.segs| && readInd + len + 1 == Start(view.segs, view.cursor + 1)
    {
      PositionBelow(view);
      var text := CurrentString();
      len := |text|;
      if view.cursor < |view.segs| {
        TextHere(buffer[..], view);
      }
    }

    // The C string at the read index.
    method CurrentString() returns (text: string)
      requires Valid() && readInd < max
      ensures text == Text(view)
    {
      ghost var s := buffer[..];
      assert s[..writeInd] == Flat(view.segs);
      PositionBelow(view);
      if view.cursor < |view.segs| {
        TextHere(s, view);
      } else {
        CStringIs(s, readInd, "");
      }
      text := CString(buffer[..], readInd);
    }

    method RunOne(op: Op) returns (overrun: bool, out: string)
      requires Valid()
      modifies this, buffer
      ensures Valid() && (overrun <==> Overruns(op, old(view), max))
      ensures overrun ==> view == old(view)
      ensures !overrun ==> (view, out) == Step(op, old(view), max)
    {
      overrun, out := false, "";
      match op {
        case Write(data) =>
          var r := Write(data);
          overrun := r == Overrun;
        case Show =>
          overrun, out := Show();
      }
    }

    /** Any interleaving of writes and shows: the buffer refines the list of segments, up to
        the first overrun if there is one. */
    method Run(ops: seq<Op>) returns (outs: seq<string>)
      requires Valid()
      modifies this, buffer
      ensures Valid()
      ensures outs == Outputs(ops, old(view), max) && view == Final(ops, old(view), max)
    {
      outs := [];
      var i := 0;
      assert ops[0..] == ops;
      while i < |ops|
        invariant 0 <= i <= |ops| && Valid()
        invariant outs + Outputs(ops[i..], view, max) == Outputs(ops, old(view), max)
        invariant Final(ops[i..], view, max) == Final(ops, old(view), max)
      {
        Unfold(ops, i, view, max);
        var overrun, out := RunOne(ops[i]);
        if overrun {
          RightNil(outs);
          return;
        }
        Assoc(outs, [out], Outputs(ops[i + 1..], view, max));
        outs := outs + [out];
        i := i + 1;
      }
    }
  }

  /** strlen starts inside the buffer exactly when the cursor has a segment or room is left. */
  lemma ShowInBounds(a: Abs, max: nat)
    requires Proper(a) && |Flat(a.segs)| <= max
    ensures Inside(a, max) <==> a.cursor < |a.segs| || |Flat(a.segs)| < max
  {
    PositionBelow(a);
  }

  // ---------------------------------------------------------------- the list of segments

  datatype Op = Write(data: string) | Show

  /** What one show prints: the text at the read position; past the end, the first segment. */
  function Shown(a: Abs): string { Text(Rewound(a)) }

  /** The state afterwards: a wrap only goes back to the start, and an empty text holds it. */
  function Next(a: Abs): Abs {
    if a.cursor >= |a.segs| then Rewound(a)
    else if Text(a) == "" then a
    else Abs(a.segs, a.cursor + 1, 0)
  }

  /** strlen finds a byte at the read index. */
  predicate Inside(a: Abs, max: nat)
    requires a.cursor <= |a.segs|
  {
    Position(a) < max
  }

  predicate Overruns(op: Op, a: Abs, max: nat)
    requires a.cursor <= |a.segs|
  {
    match op
    case Write(data) => Accepted(max, |Flat(a.segs)|, |data|) && !InBounds(max, |Flat(a.segs)|, |data|)
    case Show => !Inside(a, max)
  }

  function Step(op: Op, a: Abs, max: nat): (r: (Abs, string))
    requires a.cursor <= |a.segs|
    ensures r.0.cursor <= |r.0.segs|
  {
    match op
    case Write(data) => if Accepted(max, |Flat(a.segs)|, |data|) then (Stored(a, data), "") else (a, "")
    case Show => (Next(a), Shown(a))
  }

  /** What a run prints, operation by operation, up to an overrun. */
  function Outputs(ops: seq<Op>, a: Abs, max: nat): (outs: seq<string>)
    requires a.cursor <= |a.segs|
    ensures |outs| <= |ops|
  {
    if ops == [] || Overruns(ops[0], a, max) then [] else
      var r := Step(ops[0], a, max);
      [r.1] + Outputs(ops[1..], r.0, max)
  }

  function Final(ops: seq<Op>, a: Abs, max: nat): (r: Abs)
    requires a.cursor <= |a.segs|
    ensures r.cursor <= |r.segs|
  {
    if ops == [] || Overruns(ops[0], a, max) then a else Final(ops[1..], Step(ops[0], a, max).0, max)
  }

  lemma Unfold(ops: seq<Op>, i: nat, a: Abs, max: nat)
    requires i < |ops| && a.cursor <= |a.segs|
    ensures var r := Step(ops[i], a, max);
            if Overruns(ops[i], a, max) then Outputs(ops[i..], a, max) == [] && Final(ops[i..], a, max) == a
            else Outputs(ops[i..], a, max) == [r.1] + Outputs(ops[i + 1..], r.0, max)
                 && Final(ops[i..], a, max) == Final(ops[i + 1..], r.0, max)
  {
    assert ops[i..][0] == ops[i] && ops[i..][1..] == ops[i + 1..];
  }

  /** After operations without an overrun, the rest of a run starts from where they end. */
  lemma {:induction false} RunAppend(xs: seq<Op>, ys: seq<Op>, a: Abs, max: nat)
    requires a.cursor <= |a.segs| && |Outputs(xs, a, max)| == |xs|
    ensures Outputs(xs + ys, a, max) == Outputs(xs, a, max) + Outputs(ys, Final(xs, a, max), max)
    ensures Final(xs + ys, a, max) == Final(ys, Final(xs, a, max), max)
    decreases |xs|
  {
    if xs == [] {
      assert xs + ys == ys;
      LeftNil(Outputs(ys, a, max));
    } else {
      var r := Step(xs[0], a, max);
      assert (xs + ys)[0] == xs[0] && (xs + ys)[1..] == xs[1..] + ys;
      RunAppend(xs[1..], ys, r.0, max);
      Assoc([r.1], Outputs(xs[1..], r.0, max), Outputs(ys, Final(xs, a, max), max));
    }
  }

  lemma RunOne(op: Op, a: Abs, max: nat)
    requires a.cursor <= |a.segs|
    ensures Outputs([op], a, max) == if Overruns(op, a, max) then [] else [Step(op, a, max).1]
    ensures Final([op], a, max) == if Overruns(op, a, max) then a else Step(op, a, max).0
  {
    assert [op][1..] == [];
  }

  // ---------------------------------------------------------------- shows in a row

  function Shows(m: nat): (ops: seq<Op>)
    ensures |ops| == m && forall i :: 0 <= i < m ==> ops[i] == Show
  {
    if m == 0 then [] else Shows(m - 1) + [Show]
  }

  /** The state after m shows. */
  function After(a: Abs, m: nat): (r: Abs)
    requires a.cursor <= |a.segs|
    ensures r.cursor <= |r.segs| && r.segs == a.segs
  {
    if m == 0 then a else Next(After(a, m - 1))
  }

  /** What the states of m shows show. */
  function Texts(a: Abs, m: nat): (r: seq<string>)
    requires a.cursor <= |a.segs|
    ensures |r| == m && forall i: nat :: i < m ==> r[i] == Shown(After(a, i))
  {
    if m == 0 then [] else Texts(a, m - 1) + [Shown(After(a, m - 1))]
  }

  /** m shows print what their states show, as long as each finds a byte at the read index. */
  lemma {:induction false} ShowsRun(a: Abs, m: nat, max: nat)
    requires a.cursor <= |a.segs| && forall i: nat :: i < m ==> Inside(After(a, i), max)
    ensures Outputs(Shows(m), a, max) == Texts(a, m) && Final(Shows(m), a, max) == After(a, m)
  {
    if m > 0 {
      ShowsRun(a, m - 1, max);
      ShowsSnoc(a, m - 1, max);
    }
  }

  lemma ShowsSnoc(a: Abs, m: nat, max: nat)
    requires a.cursor <= |a.segs| && |Outputs(Shows(m), a, max)| == m
    requires Inside(Final(Shows(m), a, max), max)
    ensures var b := Final(Shows(m), a, max);
            && Outputs(Shows(m + 1), a, max) == Outputs(Shows(m), a, max) + [Shown(b)]
            && Final(Shows(m + 1), a, max) == Next(b)
  {
    assert Shows(m + 1) == Shows(m) + [Show];
    RunAppend(Shows(m), [Show], a, max);
    RunOne(Show, Final(Shows(m), a, max), max);
  }

  /** Counting up to n and starting over. */
  ghost function Cycle(n: nat, m: nat): (c: nat)
    ensures c <= n
  {
    if m == 0 || Cycle(n, m - 1) == n then 0 else Cycle(n, m - 1) + 1
  }

  lemma {:induction false} CycleIsMod(n: nat, m: nat)
    ensures Cycle(n, m) == m % (n + 1)
  {
    if m > 0 {
      CycleIsMod(n, m - 1);
      ModSuccessor(m, n + 1);
    }
  }

  ghost predicate NoneEmpty(segs: seq<string>) {
    forall i :: 0 <= i < |segs| ==> segs[i] != ""
  }

  lemma {:induction false} CursorCycles(segs: seq<string>, m: nat)
    requires NoneEmpty(segs)
    ensures After(Abs(segs, 0, 0), m) == Abs(segs, Cycle(|segs|, m), 0)
  {
    if m > 0 {
      CursorCycles(segs, m - 1);
    }
  }

  /** From the first segment on, the cursor counts up to n and starts over: period n + 1. */
  lemma CursorPeriod(segs: seq<string>, m: nat)
    requires NoneEmpty(segs)
    ensures After(Abs(segs, 0, 0), m) == Abs(segs, m % (|segs| + 1), 0)
  {
    CursorCycles(segs, m);
    CycleIsMod(|segs|, m);
  }

  /** What the show at place r of a period prints: its own segment, and at the wrap the first
      one again. */
  function Periodic(segs: seq<string>, r: nat): string
    requires segs != []
  {
    if r < |segs| then segs[r] else segs[0]
  }

  /** m shows of period n + 1. */
  function PeriodicShows(segs: seq<string>, m: nat): (outs: seq<string>)
    requires segs != []
    ensures |outs| == m
  {
    seq(m, (i: nat) => Periodic(segs, i % (|segs| + 1)))
  }

  /** How many of m shows find a byte at the read index: all of them if the buffer has a byte
      left, and otherwise those before the first wrap. */
  function ShowsInside(segs: seq<string>, m: nat, max: nat): nat {
    if |Flat(segs)| < max || m <= |segs| then m else |segs|
  }

  /** Shows without writes, over non-empty segments, have period n + 1. */
  lemma ShowPeriod(segs: seq<string>, m: nat, max: nat)
    requires segs != [] && Clean(segs) && NoneEmpty(segs) && |Flat(segs)| <= max
    ensures Outputs(Shows(m), Abs(segs, 0, 0), max) == PeriodicShows(segs, ShowsInside(segs, m, max))
  {
    var outs := Outputs(Shows(m), Abs(segs, 0, 0), max);
    ShowsCycle(segs, m, max);
    forall i | 0 <= i < |outs| ensures outs[i] == Periodic(segs, i % (|segs| + 1)) {
      CycleIsMod(|segs|, i);
    }
  }

  lemma ShowsCycle(segs: seq<string>, m: nat, max: nat)
    requires segs != [] && Clean(segs) && NoneEmpty(segs) && |Flat(segs)| <= max
    ensures var outs := Outputs(Shows(m), Abs(segs, 0, 0), max);
            && |outs| == ShowsInside(segs, m, max)
            && forall i :: 0 <= i < |outs| ==> outs[i] == Periodic(segs, Cycle(|segs|, i))
  {
    var n, a := |segs|, Abs(segs, 0, 0);
    var k := ShowsInside(segs, m, max);
    forall i: nat | i < k ensures Inside(After(a, i), max) && Shown(After(a, i)) == Periodic(segs, Cycle(n, i)) {
      ShowAt(segs, i, max);
    }
    ShowsRun(a, k, max);
    if k < m {
      ShowAt(segs, n, max);
      ShowsEnd(a, n, m, max);
    }
  }

  // Show number i: where it finds the read index, and what it prints.
  lemma ShowAt(segs: seq<string>, i: nat, max: nat)
    requires segs != [] && Clean(segs) && NoneEmpty(segs) && |Flat(segs)| <= max
    ensures var b := After(Abs(segs, 0, 0), i);
            && (Inside(b, max) <==> Cycle(|segs|, i) < |segs| || |Flat(segs)| < max)
            && Shown(b) == Periodic(segs, Cycle(|segs|, i))
    ensures i <= |segs| ==> Cycle(|segs|, i) == i
  {
    CursorCycles(segs, i);
    ShowInBounds(Abs(segs, Cycle(|segs|, i), 0), max);
    if i <= |segs| {
      CycleIsMod(|segs|, i);
      DivideSum(0, |segs| + 1, i);
    }
  }

  // A show that finds the read index past the end is the last one of a run.
  lemma ShowsEnd(a: Abs, n: nat, m: nat, max: nat)
    requires a.cursor <= |a.segs| && n < m && !Inside(After(a, n), max)
    requires forall i: nat :: i < n ==> Inside(After(a, i), max)
    ensures Outputs(Shows(m), a, max) == Outputs(Shows(n), a, max) && |Outputs(Shows(n), a, max)| == n
    ensures Final(Shows(m), a, max) == After(a, n)
  {
    ShowsRun(a, n, max);
    assert Shows(m) == Shows(n) + Shows(m - n);
    RunAppend(Shows(n), Shows(m - n), a, max);
    RightNil(Outputs(Shows(n), a, max));
  }

  // ---------------------------------------------------------------- records written and shown

  ghost predicate Records(rs: seq<string>) {
    forall i :: 0 <= i < |rs| ==> rs[i] != "" && NUL !in rs[i]
  }

  /** The segment a NUL-free record becomes. */
  function Line(data: string): string
    requires data != ""
  {
    data[..|data| - 1] + "\n"
  }

  ghost function Lines(rs: seq<string>): (segs: seq<string>)
    requires Records(rs)
    ensures |segs| == |rs| && forall i :: 0 <= i < |rs| ==> segs[i] == Line(rs[i])
    ensures Clean(segs) && NoneEmpty(segs)
  {
    seq(|rs|, i requires 0 <= i < |rs| => Line(rs[i]))
  }

  function Writes(rs: seq<string>): (ops: seq<Op>)
    ensures |ops| == |rs|
  {
    seq(|rs|, i requires 0 <= i < |rs| => Write(rs[i]))
  }

  // Writing one more record.
  lemma WriteRecord(init: seq<string>, data: string, max: nat)
    requires Records(init) && data != "" && NUL !in data && |Flat(Lines(init + [data]))| <= max && max + 1 < WORD
    ensures var a := Abs(Lines(init), 0, 0);
            !Overruns(Write(data), a, max) && Step(Write(data), a, max) == (Abs(Lines(init + [data]), 0, 0), "")
  {
    var before, record := Lines(init), Line(data);
    WrittenOne(data);
    assert Lines(init + [data]) == before + [record];
    FlatAppend(before, [record]);
    assert [record] + [] == [record];
    FlatCons(record, []);
    RoomCheck(max, |Flat(before)|, |data|);
  }

  // What n writes print.
  function Silent(n: nat): (outs: seq<string>)
    ensures |outs| == n
  {
    seq(n, _ => "")
  }

  lemma {:induction false} WritesRun(rs: seq<string>, max: nat)
    requires Records(rs) && |Flat(Lines(rs))| <= max && max + 1 < WORD
    ensures Outputs(Writes(rs), Empty, max) == Silent(|rs|)
    ensures Final(Writes(rs), Empty, max) == Abs(Lines(rs), 0, 0)
    decreases |rs|
  {
    if rs == [] {
      assert Lines(rs) == [];
    } else {
      var init, data := rs[..|rs| - 1], rs[|rs| - 1];
      assert rs == init + [data];
      assert Lines(rs) == Lines(init) + [Line(data)];
      FlatAppend(Lines(init), [Line(data)]);
      WritesRun(init, max);
      WriteRecord(init, data, max);
      assert Writes(rs) == Writes(init) + [Write(data)];
      RunAppend(Writes(init), [Write(data)], Empty, max);
      RunOne(Write(data), Abs(Lines(init), 0, 0), max);
    }
  }

  /** From the empty module: n records without NULs that fit, then m shows.  The shows print
      the records in turn, the first one twice, with period n + 1; if the records fill the
      buffer to its last byte, the show after the n-th overruns it. */
  lemma RecordsShown(rs: seq<string>, m: nat, max: nat)
    requires rs != [] && Records(rs) && |Flat(Lines(rs))| <= max && max + 1 < WORD
    ensures Outputs(Writes(rs) + Shows(m), Empty, max)
            == Silent(|rs|) + PeriodicShows(Lines(rs), ShowsInside(Lines(rs), m, max))
  {
    WritesRun(rs, max);
    RunAppend(Writes(rs), Shows(m), Empty, max);
    ShowPeriod(Lines(rs), m, max);
  }

  /** Two records, shown five times: the first is shown twice in a row, at the wrap and after. */
  lemma TwoRecordsShown(one: string, two: string, max: nat)
    requires one != "" && two != "" && NUL !in one && NUL !in two && |one| + |two| + 2 < max && max + 1 < WORD
    ensures var first, second := one[..|one| - 1] + "\n", two[..|two| - 1] + "\n";
            Outputs([Write(one), Write(two), Show, Show, Show, Show, Show], Empty, max)
            == ["", "", first, second, first, first, second]
  {
    TwoLines(one, two);
    RecordsShown([one, two], 5, max);
    FivePlaces(Lines([one, two]));
    assert Writes([one, two]) + Shows(5) == [Write(one), Write(two), Show, Show, Show, Show, Show];
  }

  lemma TwoLines(one: string, two: string)
    requires one != "" && two != "" && NUL !in one && NUL !in two
    ensures |Flat(Lines([one, two]))| == |one| + |two| + 2
  {
    assert Lines([one, two]) == [Line(one)] + [Line(two)];
    FlatAppend([Line(one)], [Line(two)]);
    FlatOne(Line(one));
    FlatOne(Line(two));
  }

  lemma FivePlaces(segs: seq<string>)
    requires |segs| == 2
    ensures PeriodicShows(segs, 5) == [segs[0], segs[1], segs[0], segs[0], segs[1]]
  {
    var shown := PeriodicShows(segs, 5);
    assert shown[0] == segs[0] && shown[1] == segs[1] && shown[2] == segs[0];
    assert shown[3] == segs[0] && shown[4] == segs[1];
  }

  /** strlen past the end, at a record the module accepts: after one that fills the empty
      buffer, the first show prints it and the second overruns. */
  lemma FullBufferOverruns(data: string, max: nat)
    requires data != "" && NUL !in data && |data| + 1 == max && max + 1 < WORD
    ensures var outs := Outputs([Write(data), Show, Show], Empty, max);
            |outs| == 2 && outs[1] == Line(data)
    ensures Overruns(Show, Final([Write(data), Show, Show], Empty, max), max)
  {
    var segs := Lines([data]);
    var a := Abs(segs, 0, 0);
    assert segs == [Line(data)] && [Line(data)] + [] == [Line(data)];
    FlatCons(Line(data), []);
    WritesRun([data], max);
    assert Writes([data]) + Shows(2) == [Write(data), Show, Show];
    RunAppend(Writes([data]), Shows(2), Empty, max);
    ShowAt(segs, 0, max);
    ShowAt(segs, 1, max);
    ShowsRun(a, 1, max);
    ShowsEnd(a, 1, 2, max);
  }

  // ---------------------------------------------------------------- what shows can reach

  /** The state after one more show: an overrun leaves it as it was. */
  function Moved(a: Abs, max: nat): Abs
    requires a.cursor <= |a.segs|
  {
    if Inside(a, max) then Next(a) else a
  }

  lemma {:induction false} FinalMoves(a: Abs, m: nat, max: nat)
    requires a.cursor <= |a.segs|
    ensures Final(Shows(m + 1), a, max) == Final(Shows(m), Moved(a, max), max)
  {
    ShowsFront(m);
    assert ([Show] + Shows(m))[1..] == Shows(m);
    if !Inside(a, max) {
      FinalStuck(a, m, max);
    }
  }

  lemma {:induction false} ShowsFront(m: nat)
    ensures Shows(m + 1) == [Show] + Shows(m)
  {
    if m > 0 {
      ShowsFront(m - 1);
      Assoc([Show], Shows(m - 1), [Show]);
    } else {
      assert Shows(1) == Shows(0) + [Show] == [Show] + Shows(0);
    }
  }

  lemma FinalStuck(a: Abs, m: nat, max: nat)
    requires a.cursor <= |a.segs| && !Inside(a, max)
    ensures Final(Shows(m), a, max) == a
  {
    if m > 0 {
      assert Shows(m)[0] == Show;
    }
  }

  // Segments lo to hi are not empty.
  ghost predicate NoneEmptyIn(segs: seq<string>, lo: nat, hi: nat)
    requires hi <= |segs|
  {
    forall i :: lo <= i < hi ==> segs[i] != ""
  }

  /** The way to segment j's start is clear: the text at the read index is not empty, nor is any
      segment passed on the way, and a way round the end needs a byte left in the buffer. */
  ghost predicate Clear(a: Abs, j: nat, max: nat)
    requires a.cursor <= |a.segs| && j < |a.segs|
  {
    var n := |a.segs|;
    if a.cursor == j && a.skip == 0 then true
    else if a.cursor == n then |Flat(a.segs)| < max && NoneEmptyIn(a.segs, 0, j)
    else Text(a) != ""
         && if a.cursor < j then NoneEmptyIn(a.segs, a.cursor + 1, j)
            else |Flat(a.segs)| < max && NoneEmptyIn(a.segs, a.cursor + 1, n) && NoneEmptyIn(a.segs, 0, j)
  }

  ghost function Distance(a: Abs, j: nat): nat
    requires a.cursor <= |a.segs|
  {
    if a.cursor == j && a.skip == 0 then 0
    else if a.cursor < j then j - a.cursor
    else |a.segs| - a.cursor + 1 + j
  }

  lemma NoneEmptyFrom(segs: seq<string>, lo: nat, hi: nat)
    requires lo < hi <= |segs|
    ensures NoneEmptyIn(segs, lo, hi) <==> segs[lo] != "" && NoneEmptyIn(segs, lo + 1, hi)
  {
  }

  /** A show keeps the way clear, and blocked; and on a clear way it comes nearer. */
  lemma ClearStep(a: Abs, j: nat, max: nat)
    requires Proper(a) && |Flat(a.segs)| <= max && j < |a.segs| && a != Abs(a.segs, j, 0)
    ensures var b := Moved(a, max);
            && Proper(b) && b.segs == a.segs && (Clear(a, j, max) <==> Clear(b, j, max))
            && (Clear(a, j, max) ==> Distance(b, j) < Distance(a, j))
  {
    var n, c := |a.segs|, a.cursor;
    ShowInBounds(a, max);
    if c == n {
      if j > 0 {
        NoneEmptyFrom(a.segs, 0, j);
      }
    } else if Text(a) != "" {
      if c + 1 < j {
        NoneEmptyFrom(a.segs, c + 1, j);
      } else if j <= c && c + 1 < n {
        NoneEmptyFrom(a.segs, c + 1, n);
      }
    }
  }

  /** From any state, some number of shows brings the read index to a segment's start exactly
      when the way there is clear. */
  lemma CursorReaches(a: Abs, j: nat, max: nat)
    requires Proper(a) && |Flat(a.segs)| <= max && j < |a.segs|
    ensures (exists m: nat :: Final(Shows(m), a, max) == Abs(a.segs, j, 0)) <==> Clear(a, j, max)
  {
    if Clear(a, j, max) {
      var m := WayThere(a, j, max);
    }
    forall m: nat | Final(Shows(m), a, max) == Abs(a.segs, j, 0) ensures Clear(a, j, max) {
      WayBack(a, j, m, max);
    }
  }

  lemma {:induction false} WayThere(a: Abs, j: nat, max: nat) returns (m: nat)
    requires Proper(a) && |Flat(a.segs)| <= max && j < |a.segs| && Clear(a, j, max)
    ensures Final(Shows(m), a, max) == Abs(a.segs, j, 0)
    decreases Distance(a, j)
  {
    m := 0;
    if a != Abs(a.segs, j, 0) {
      ClearStep(a, j, max);
      var k := WayThere(Moved(a, max), j, max);
      FinalMoves(a, k, max);
      m := k + 1;
    }
  }

  lemma {:induction false} WayBack(a: Abs, j: nat, m: nat, max: nat)
    requires Proper(a) && |Flat(a.segs)| <= max && j < |a.segs|
    requires Final(Shows(m), a, max) == Abs(a.segs, j, 0)
    ensures Clear(a, j, max)
    decreases m
  {
    if m > 0 && a != Abs(a.segs, j, 0) {
      FinalMoves(a, m - 1, max);
      ClearStep(a, j, max);
      WayBack(Moved(a, max), j, m - 1, max);
    }
  }

  // A state that a show leaves as it is, printing nothing.
  lemma {:induction false} IdleShows(a: Abs, m: nat, max: nat)
    requires a.cursor <= |a.segs| && Inside(a, max) && Next(a) == a && Shown(a) == ""
    ensures Outputs(Shows(m), a, max) == Silent(m) && Final(Shows(m), a, max) == a
  {
    if m > 0 {
      IdleShows(a, m - 1, max);
      ShowsSnoc(a, m - 1, max);
      assert Silent(m) == Silent(m - 1) + [""];
    }
  }

  /** An empty text at the read index, which is not past the end, holds it for ever: no show
      prints anything again. */
  lemma HeldForEver(a: Abs, m: nat, max: nat)
    requires Proper(a) && |Flat(a.segs)| <= max && a.cursor < |a.segs| && Text(a) == ""
    ensures Outputs(Shows(m), a, max) == Silent(m) && Final(Shows(m), a, max) == a
  {
    ShowInBounds(a, max);
    IdleShows(a, m, max);
  }

  /** Before the first write, shows print nothing. */
  lemma EmptyShows(m: nat, max: nat)
    requires max > 0
    ensures Outputs(Shows(m), Empty, max) == Silent(m) && Final(Shows(m), Empty, max) == Empty
  {
    StartEnds([]);
    IdleShows(Empty, m, max);
  }

  /** No show gets past a record that starts with a NUL, in whatever state it is written: of
      all segments, only those from the cursor up to that record can be reached. */
  lemma LeadingNulBlocks(a: Abs, data: string, j: nat, m: nat, max: nat)
    requires Proper(a) && |data| > 1 && data[0] == NUL && |Flat(Stored(a, data).segs)| <= max
    requires j < |Stored(a, data).segs| && Final(Shows(m), Stored(a, data), max) == Abs(Stored(a, data).segs, j, 0)
    ensures a.cursor <= j <= |a.segs|
  {
    var b, n := Stored(a, data), |a.segs|;
    FirstEmpty(data);
    WriteStores(a, data);
    CursorReaches(b, j, max);
    assert b.segs[n] == "" && Clear(b, j, max);
  }

  /** In a module that holds nothing else, nothing is ever shown after such a record. */
  lemma LeadingNulHolds(data: string, m: nat, max: nat)
    requires |data| > 1 && data[0] == NUL && |data| + 1 <= max && max + 1 < WORD
    ensures Outputs([Write(data)] + Shows(m), Empty, max) == [""] + Silent(m)
  {
    var a := Abs(Written(data), 0, 0);
    FirstWrite(data, max);
    FirstEmpty(data);
    FlatSplit(data[..|data| - 1] + "\n");
    RunAppend([Write(data)], Shows(m), Empty, max);
    HeldForEver(a, m, max);
  }

  lemma FirstWrite(data: string, max: nat)
    requires data != "" && |data| + 1 <= max && max + 1 < WORD
    ensures Outputs([Write(data)], Empty, max) == [""]
    ensures Final([Write(data)], Empty, max) == Abs(Written(data), 0, 0)
  {
    StartEnds([]);
    RoomCheck(max, 0, |data|);
    LeftNil(Written(data));
    RunOne(Write(data), Empty, max);
  }

  lemma FirstEmpty(data: string)
    requires |data| > 1 && data[0] == NUL
    ensures Written(data)[0] == ""
  {
    var s := data[..|data| - 1] + "\n";
    assert s[0] == NUL && SplitNul(s) == [""] + SplitNul(s[1..]);
  }

  /** The held cursor with no empty segment at all: a record is written and shown, and an empty
      write follows.  The read index is then at the end of the only segment, and nothing is
      ever shown again. */
  lemma EmptyWriteHolds(data: string, m: nat, max: nat)
    requires data != "" && NUL !in data && |data| + 2 <= max && max + 1 < WORD
    ensures var ops := [Write(data), Show, Write("")];
            && Final(ops, Empty, max) == Abs([Line(data) + "\n"], 0, |data| + 1)
            && Outputs(ops + Shows(m), Empty, max) == ["", Line(data), ""] + Silent(m)
  {
    var record := Line(data);
    var a, b, c := Abs([record], 0, 0), Abs([record], 1, 0), Abs([record + "\n"], 0, |record| + 1);
    var ops := [Write(data), Show, Write("")];
    WrittenOne(data);
    FirstWrite(data, max);
    FlatOne(record);
    FlatOne(record + "\n");
    ShowInBounds(a, max);
    EmptyWriteAtEnd(record, max);
    assert ops[0..] == ops && ops[3..] == [];
    assert Step(Write(data), Empty, max) == (a, "") && Step(Show, a, max) == (b, record);
    Unfold(ops, 0, Empty, max);
    Unfold(ops, 1, a, max);
    Unfold(ops, 2, b, max);
    RunAppend(ops, Shows(m), Empty, max);
    HeldForEver(c, m, max);
  }

  lemma EmptyWriteAtEnd(record: string, max: nat)
    requires |record| + 2 <= max && max + 1 < WORD
    ensures var b, c := Abs([record], 1, 0), Abs([record + "\n"], 0, |record| + 1);
            !Overruns(Write(""), b, max) && Step(Write(""), b, max) == (c, "") && Text(c) == ""
  {
    FlatOne(record);
    RoomCheck(max, |record| + 1, 0);
    assert Lengthened([record]) == [record + "\n"];
    assert (record + "\n")[|record| + 1..] == "";
  }

  /** Records without NULs are never empty segments, so they are all shown. */
  lemma RecordNotEmpty(data: string)
    requires data != ""
    ensures (NUL !in data[..|data| - 1]) ==> Written(data) == [Line(data)]
    ensures Written(data)[|Written(data)| - 1] != ""
  {
    var s := data[..|data| - 1] + "\n";
    if NUL !in data[..|data| - 1] {
      SplitOne(s);
    }
    LastSegment(s);
  }

  lemma {:induction false} LastSegment(s: string)
    requires s != "" && s[|s| - 1] != NUL
    ensures SplitNul(s)[|SplitNul(s)| - 1] != ""
  {
    if |s| > 1 {
      LastSegment(s[1..]);
    }
  }
}
