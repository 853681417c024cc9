/** The byte buffer of lab_04/part2/fortune.c and the list of segments it stands for. */
module Fortune {
  import opened Arithmetic
  import opened Pieces
  import opened Segments

  /** What one read delivers: the text and a newline.  snprintf keeps the last byte of its
      buffer for a NUL, so a text that fills the buffer loses the newline to it. */
  function Delivered(text: string, max: nat): string {
    text + if |text| + 1 < max then "\n" else [NUL]
  }

  class Module {
    const max: nat
    const cookieBuffer: array<char>
    const tmpBuffer: array<char>
    var readInd: nat
    var writeInd: nat
    ghost var view: Abs

    /** The bytes written so far are the segments, and the read index is the position the
        cursor stands for. */
    ghost predicate Valid()
      reads this, cookieBuffer
    {
      && cookieBuffer.Length == tmpBuffer.Length == max > 0 && cookieBuffer != tmpBuffer
      && max + 1 < WORD && writeInd <= max && cookieBuffer[..writeInd] == Flat(view.segs)
      && Proper(view) && readInd == Position(view)
    }

    constructor (max: nat)
      requires 0 < max < WORD - 1
      ensures Valid() && view == Empty && this.max == max
    {
      this.max := max;
      this.cookieBuffer := new char[max](_ => NUL);
      this.tmpBuffer := new char[max](_ => NUL);
      readInd, writeInd := 0, 0;
      view := Empty;
      new;
      StartEnds([]);
    }

    /** writeFortune, for any data at all. */
    method Write(data: string) returns (r: Outcome)
      requires Valid()
      modifies this, cookieBuffer
      ensures Valid()
      ensures r == if !Accepted(max, old(writeInd), |data|) then Returned(-28)
                   else if InBounds(max, old(writeInd), |data|) then Returned(|data|) else Overrun
      ensures view == if r == Returned(|data|) then Stored(old(view), data) else old(view)
      ensures r != Returned(|data|) ==> cookieBuffer[..] == old(cookieBuffer[..])
    {
      if !Accepted(max, writeInd, |data|) {
        return Returned(-ENOSPC);
      }
      if !InBounds(max, writeInd, |data|) {
        return Overrun;
      }
      Store(data);
      return Returned(|data|);
    }

    // The part of writeFortune after the check.
    method Store(data: string)
      requires Valid() && InBounds(max, writeInd, |data|)
      modifies this, cookieBuffer
      ensures Valid() && view == Stored(old(view), data)
    {
      WriteStores(view, data);
      writeInd := StoreRecord(cookieBuffer, writeInd, data);
      view := Stored(view, data);
    }

    // snprintf(tmpBuffer, max, "%s\n", s): the untruncated length is what it returns.
    method Snprintf(s: string) returns (n: nat)
      requires tmpBuffer.Length > 0
      modifies tmpBuffer
      ensures n == |s| + 1
      ensures var text := s + "\n"; var kept := if n < tmpBuffer.Length then n else tmpBuffer.Length - 1;
              tmpBuffer[..kept] == text[..kept] && tmpBuffer[kept] == NUL
    {
      var text := s + "\n";
      n := |text|;
      var kept := if n < tmpBuffer.Length then n else tmpBuffer.Length - 1;
      forall k | 0 <= k < kept {
        tmpBuffer[k] := text[k];
      }
      tmpBuffer[kept] := NUL;
    }

    /** readFortune; `out` is what reaches the reader.  Only a read at file position 0 of a
        buffer that has been written delivers anything: the text at the read index, which goes
        back to the start at the end, and a newline exactly when text and newline are shorter
        than the buffer. */
    method Read(fPos: nat) returns (rc: int, out: string, fPos': nat)
      requires Valid()
      modifies this`readInd, this`view, tmpBuffer
      ensures Valid() && rc == |out| && fPos' == fPos + |out|
      ensures fPos > 0 || view.segs == [] ==> out == "" && view == old(view)
      ensures fPos == 0 && view.segs != [] ==>
        var a := Rewound(old(view));
        && out == Delivered(Text(a), max) && view == Abs(a.segs, a.cursor + 1, 0)
        && (out == Text(a) + "\n" <==> |Text(a)| + 1 < max)
    {
      PositionBelow(Abs(view.segs, 0, 0));
      PositionBelow(view);
      StartEnds(view.segs);
      if fPos > 0 || writeInd == 0 {
        return 0, "", fPos;
      }
      if readInd >= writeInd {
        readInd := 0;
        view := Abs(view.segs, 0, 0);
      }
      NewlineDelivered(Text(view), max);
      out := Deliver();
      return |out|, out, fPos + |out|;
    }

    // The text at the read index goes to the reader, and the index moves on.
    method Deliver() returns (out: string)
      requires Valid() && view.cursor < |view.segs|
      modifies this`readInd, this`view, tmpBuffer
      ensures Valid() && out == Delivered(Text(old(view)), max)
      ensures view == Abs(old(view).segs, old(view).cursor + 1, 0)
    {
      ghost var s := cookieBuffer[..];
      assert s[..writeInd] == Flat(view.segs);
      TextHere(s, view);
      var readLen := Snprintf(CString(cookieBuffer[..], readInd));
      out := tmpBuffer[..readLen];
      assert out == Delivered(Text(view), max);
      assert cookieBuffer[..] == s;
      readInd := readInd + readLen;
      view := Abs(view.segs, view.cursor + 1, 0);
    }

    method RunOne(op: Op) returns (overrun: bool, out: string)
      requires Valid()
      modifies this, cookieBuffer, tmpBuffer
      ensures Valid() && (overrun <==> Overruns(op, old(view), max))
      ensures overrun ==> view == old(view)
      ensures !overrun ==> (view, out) == Step(op, old(view), max)
    {
      overrun, out := false, "";
      match op {
        case Write(data) =>
          var r := Write(data);
          overrun := r == Overrun;
        case Read =>
          var _, text, _ := Read(0);
          out := text;
      }
    }

    /** Any interleaving of writes and fresh reads: the buffer refines the list of segments,
        up to the first overrun if there is one. */
    method Run(ops: seq<Op>) returns (outs: seq<string>)
      requires Valid()
      modifies this, cookieBuffer, tmpBuffer
      ensures Valid()
      ensures outs == Outputs(ops, old(view), max) && view == Final(ops, old(view), max)
    {
      outs := [];
      var i := 0;
      assert ops[0..] == ops;
      while i < |ops|
        invariant 0 <= i <= |ops| && Valid()
        invariant outs + Outputs(ops[i..], view, max) == Outputs(ops, old(view), max)
        invariant Final(ops[i..], view, max) == Final(ops, old(view), max)
      {
        Unfold(ops, i, view, max);
        var overrun, out := RunOne(ops[i]);
        if overrun {
          RightNil(outs);
          return;
        }
        Assoc(outs, [out], Outputs(ops[i + 1..], view, max));
        outs := outs + [out];
        i := i + 1;
      }
    }
  }

  /** The newline survives exactly when text and newline are shorter than the buffer. */
  lemma NewlineDelivered(text: string, max: nat)
    ensures Delivered(text, max) == text + "\n" <==> |text| + 1 < max
  {
    assert (text + [NUL])[|text|] != (text + "\n")[|text|];
  }

  // ---------------------------------------------------------------- the list of segments

  datatype Op = Write(data: string) | Read

  predicate Overruns(op: Op, a: Abs, max: nat) {
    op.Write? && Accepted(max, |Flat(a.segs)|, |op.data|) && !InBounds(max, |Flat(a.segs)|, |op.data|)
  }

  /** One operation on the list, and what it delivers. */
  function Step(op: Op, a: Abs, max: nat): (Abs, string) {
    match op
    case Write(data) =>
      if Accepted(max, |Flat(a.segs)|, |data|) then (Stored(a, data), "") else (a, "")
    case Read =>
      var r := Rewound(a);
      if a.segs == [] then (a, "") else (Abs(r.segs, r.cursor + 1, 0), Delivered(Text(r), max))
  }

  /** What a run delivers, operation by operation, up to an overrun. */
  function Outputs(ops: seq<Op>, a: Abs, max: nat): seq<string> {
    if ops == [] || Overruns(ops[0], a, max) then [] else
      var r := Step(ops[0], a, max);
      [r.1] + Outputs(ops[1..], r.0, max)
  }

  function Final(ops: seq<Op>, a: Abs, max: nat): Abs {
    if ops == [] || Overruns(ops[0], a, max) then a else Final(ops[1..], Step(ops[0], a, max).0, max)
  }

  lemma Unfold(ops: seq<Op>, i: nat, a: Abs, max: nat)
    requires i < |ops|
    ensures var r := Step(ops[i], a, max);
            if Overruns(ops[i], a, max) then Outputs(ops[i..], a, max) == [] && Final(ops[i..], a, max) == a
            else Outputs(ops[i..], a, max) == [r.1] + Outputs(ops[i + 1..], r.0, max)
                 && Final(ops[i..], a, max) == Final(ops[i + 1..], r.0, max)
  {
    assert ops[i..][0] == ops[i] && ops[i..][1..] == ops[i + 1..];
  }

  function Fresh(m: nat): (ops: seq<Op>)
    ensures |ops| == m
  {
    if m == 0 then [] else [Read] + Fresh(m - 1)
  }

  // The segment that comes i places after segment c, in rotation.
  function Turn(c: nat, i: nat, n: nat): (t: nat)
    requires n > 0
    ensures t < n
  {
    (c + i) % n
  }

  lemma TurnStep(c: nat, i: nat, n: nat)
    requires c < n && 0 < i
    ensures Turn(if c + 1 == n then 0 else c + 1, i - 1, n) == Turn(c, i, n)
  {
    if c + 1 == n {
      assert c + i == (i - 1) + n;
      ModPlus(i - 1, n);
    } else {
      assert c + 1 + (i - 1) == c + i;
    }
  }

  lemma TurnValue(c: nat, i: nat, n: nat)
    requires c < n && i < n
    ensures Turn(c, i, n) == if c + i < n then c + i else c + i - n
  {
    if c + i < n {
      DivideSum(0, n, c + i);
    } else {
      DivideSum(1, n, c + i - n);
    }
  }

  /** What the first read delivers is the text at the read position; after that, read i
      delivers the i-th segment from the cursor on, in rotation. */
  lemma {:induction false} ReadsRotate(a: Abs, m: nat, max: nat)
    requires Proper(a) && a.segs != []
    ensures var r := Rewound(a); var outs := Outputs(Fresh(m), a, max);
            && |outs| == m
            && (m > 0 ==> outs[0] == Delivered(Text(r), max))
            && forall i :: 0 < i < m ==> outs[i] == Delivered(a.segs[Turn(r.cursor, i, |a.segs|)], max)
    decreases m
  {
    if m > 0 {
      var n, r := |a.segs|, Rewound(a);
      var next := Abs(a.segs, r.cursor + 1, 0);
      assert Fresh(m)[1..] == Fresh(m - 1) && Fresh(m)[0] == Read;
      ReadsRotate(next, m - 1, max);
      var outs, later := Outputs(Fresh(m), a, max), Outputs(Fresh(m - 1), next, max);
      assert outs == [Delivered(Text(r), max)] + later;
      forall i | 0 < i < m ensures outs[i] == Delivered(a.segs[Turn(r.cursor, i, n)], max) {
        NextTurn(a.segs, r.cursor, later, i, max);
      }
    }
  }

  // Read i, counted from the cursor c, is read i - 1 counted from the next one.
  lemma NextTurn(segs: seq<string>, c: nat, later: seq<string>, i: nat, max: nat)
    requires c < |segs| && 0 < i <= |later|
    requires var d := if c + 1 == |segs| then 0 else c + 1;
             && later[0] == Delivered(segs[d], max)
             && forall j :: 0 < j < |later| ==> later[j] == Delivered(segs[Turn(d, j, |segs|)], max)
    ensures later[i - 1] == Delivered(segs[Turn(c, i, |segs|)], max)
  {
    TurnStep(c, i, |segs|);
    if i == 1 {
      TurnValue(if c + 1 == |segs| then 0 else c + 1, 0, |segs|);
    }
  }

  /** Before the first write, reads deliver nothing. */
  lemma {:induction false} EmptyReads(m: nat, max: nat)
    ensures Final(Fresh(m), Empty, max) == Empty && |Outputs(Fresh(m), Empty, max)| == m
    ensures forall i :: 0 <= i < m ==> Outputs(Fresh(m), Empty, max)[i] == ""
  {
    if m > 0 {
      EmptyReads(m - 1, max);
      assert Fresh(m)[0] == Read && Fresh(m)[1..] == Fresh(m - 1);
    }
  }

  /** What one read of each segment would deliver. */
  function Deliveries(segs: seq<string>, max: nat): (r: seq<string>)
    ensures |r| == |segs|
  {
    seq(|segs|, j requires 0 <= j < |segs| => Delivered(segs[j], max))
  }

  /** n reads in a row deliver each of the n segments exactly once: their outputs are a
      rotation of the list, hence the same strings, each as often as in the list. */
  lemma EachSegmentOnce(a: Abs, max: nat)
    requires Proper(a) && a.segs != [] && a.skip == 0
    ensures var outs := Outputs(Fresh(|a.segs|), a, max);
            var all := Deliveries(a.segs, max);
            && outs == all[Rewound(a).cursor..] + all[..Rewound(a).cursor]
            && multiset(outs) == multiset(all)
  {
    var n, c := |a.segs|, Rewound(a).cursor;
    var outs, all := Outputs(Fresh(n), a, max), Deliveries(a.segs, max);
    ReadsRotate(a, n, max);
    assert Text(Rewound(a)) == a.segs[c];
    Turned(a.segs, outs, c, max);
    Rotated(outs, all, c);
  }

  lemma Turned(segs: seq<string>, outs: seq<string>, c: nat, max: nat)
    requires c < |segs| == |outs| && outs[0] == Delivered(segs[c], max)
    requires forall i :: 0 < i < |segs| ==> outs[i] == Delivered(segs[Turn(c, i, |segs|)], max)
    ensures forall i :: 0 <= i < |segs| ==>
              outs[i] == Deliveries(segs, max)[if c + i < |segs| then c + i else c + i - |segs|]
  {
    forall i: nat | i < |segs|
      ensures outs[i] == Deliveries(segs, max)[if c + i < |segs| then c + i else c + i - |segs|]
    {
      TurnValue(c, i, |segs|);
    }
  }

  lemma Rotated(outs: seq<string>, all: seq<string>, c: nat)
    requires c < |all| == |outs|
    requires forall i :: 0 <= i < |all| ==> outs[i] == all[if c + i < |all| then c + i else c + i - |all|]
    ensures outs == all[c..] + all[..c] && multiset(outs) == multiset(all)
  {
    assert outs == all[c..] + all[..c];
    assert all == all[..c] + all[c..];
  }

  // ---------------------------------------------------------------- where the read index stands

  /** The read index stands on a segment's start, or the end, after an operation exactly if the
      operation is a read, or it stood there before; but an empty write at the end moves the
      end of the last segment past it. */
  lemma BoundaryStep(op: Op, a: Abs, max: nat)
    requires Proper(a) && !Overruns(op, a, max)
    ensures Proper(Step(op, a, max).0)
    ensures Step(op, a, max).0.skip == 0
            <==> op.Read? || (a.skip == 0 && !(op == Write("") && a.cursor == |a.segs|))
  {
    if op.Write? && Accepted(max, |Flat(a.segs)|, |op.data|) {
      BytesOf(a.segs);
      WriteStores(a, op.data);
    }
  }

  lemma BytesOf(segs: seq<string>)
    ensures |Flat(segs)| > 0 ==> segs != []
  {
    StartEnds(segs);
  }

  /** Over a whole run without empty writes, from any state whose read index is a segment's
      start or the end, it always is. */
  lemma {:induction false} BoundaryKept(ops: seq<Op>, a: Abs, max: nat)
    requires Proper(a) && a.skip == 0 && Write("") !in ops
    ensures var b := Final(ops, a, max);
            && Proper(b) && b.skip == 0
            && exists k: nat :: k <= |b.segs| && Start(b.segs, k) == Position(b)
    decreases |ops|
  {
    if ops == [] || Overruns(ops[0], a, max) {
      OnBoundary(a);
    } else {
      BoundaryStep(ops[0], a, max);
      BoundaryKept(ops[1..], Step(ops[0], a, max).0, max);
    }
  }

  /** After any run of a module without empty writes, as many reads as there are segments
      deliver each of them exactly once. */
  lemma RunThenEachOnce(ops: seq<Op>, max: nat)
    requires Write("") !in ops && Final(ops, Empty, max).segs != []
    ensures var a := Final(ops, Empty, max);
            multiset(Outputs(Fresh(|a.segs|), a, max)) == multiset(Deliveries(a.segs, max))
  {
    BoundaryKept(ops, Empty, max);
    EachSegmentOnce(Final(ops, Empty, max), max);
  }

  /** What a write stores is read back: wherever the cursor stands, the fresh read that comes
      after those of the earlier segments delivers the record, its last byte a newline. */
  lemma WriteThenRead(a: Abs, data: string, max: nat)
    requires Proper(a) && data != "" && NUL !in data && InBounds(max, |Flat(a.segs)|, |data|) && max + 1 < WORD
    ensures var k := |a.segs| - a.cursor;
            var outs := Outputs([Write(data)] + Fresh(k + 1), a, max);
            |outs| == k + 2 && outs[k + 1] == Delivered(data[..|data| - 1] + "\n", max)
  {
    WrittenOne(data);
    RoomCheck(max, |Flat(a.segs)|, |data|);
    WriteStores(a, data);
    var n, k := |a.segs|, |a.segs| - a.cursor;
    var b := Step(Write(data), a, max).0;
    var ops := [Write(data)] + Fresh(k + 1);
    assert ops[1..] == Fresh(k + 1);
    ReadsRotate(b, k + 1, max);
    TurnValue(a.cursor, k, n + 1);
    var outs := Outputs(Fresh(k + 1), b, max);
    assert Outputs(ops, a, max) == [""] + outs;
    assert outs[k] == Delivered(b.segs[n], max);
  }

  /** The lost newline, at a record the module accepts: one that fills the empty buffer is
      delivered with a NUL in the newline's place. */
  lemma NewlineLost(data: string, max: nat)
    requires data != "" && NUL !in data && |data| + 1 == max && max + 1 < WORD
    ensures var record := data[..|data| - 1] + "\n";
            var outs := Outputs([Write(data), Read], Empty, max);
            outs == ["", record + [NUL]] && outs[1] != record + "\n"
  {
    var record := data[..|data| - 1] + "\n";
    StartEnds([]);
    WriteThenRead(Empty, data, max);
    assert [Write(data)] + Fresh(1) == [Write(data), Read];
    var outs := Outputs([Write(data), Read], Empty, max);
    assert outs[0] == "";
    assert (record + [NUL])[|record|] != (record + "\n")[|record|];
  }

  /** The read index inside a segment, at writes the module accepts: an empty write after a
      record that has been read makes the next read deliver only what was appended to it, from
      inside the last segment. */
  lemma EmptyWriteReadsInside(data: string, max: nat)
    requires data != "" && NUL !in data && |data| + 2 <= max && max + 1 < WORD
    ensures var record := data[..|data| - 1] + "\n";
            var ops := [Write(data), Read, Write(""), Read];
            && Outputs(ops, Empty, max) == ["", Delivered(record, max), "", "\n"]
            && Final(ops, Empty, max).segs == [record + "\n"]
  {
    var record := data[..|data| - 1] + "\n";
    var ops := [Write(data), Read, Write(""), Read];
    var a, b, c := Abs([record], 0, 0), Abs([record], 1, 0), Abs([record + "\n"], 0, |record| + 1);
    RecordWritten(data, max);
    NewlineWritten(record, max);
    assert ops[0..] == ops && ops[4..] == [];
    Unfold(ops, 0, Empty, max);
    Unfold(ops, 1, a, max);
    Unfold(ops, 2, b, max);
    Unfold(ops, 3, c, max);
  }

  lemma RecordWritten(data: string, max: nat)
    requires data != "" && NUL !in data && |data| + 2 <= max && max + 1 < WORD
    ensures var a := Abs([data[..|data| - 1] + "\n"], 0, 0);
            !Overruns(Write(data), Empty, max) && Step(Write(data), Empty, max) == (a, "")
  {
    WrittenOne(data);
    StartEnds([]);
    LeftNil(Written(data));
    RoomCheck(max, 0, |data|);
  }

  lemma NewlineWritten(record: string, max: nat)
    requires |record| + 2 <= max && max + 1 < WORD
    ensures var b, c := Abs([record], 1, 0), Abs([record + "\n"], 0, |record| + 1);
            && !Overruns(Write(""), b, max) && Step(Write(""), b, max) == (c, "")
            && Text(c) == "" && Delivered("", max) == "\n"
  {
    FlatOne(record);
    RoomCheck(max, |record| + 1, 0);
    assert Lengthened([record]) == [record + "\n"];
    assert (record + "\n")[|record| + 1..] == "";
  }

  /** The room check's two lengths too many, at the first write of a module. */
  lemma FirstWriteOverruns(data: string, max: nat)
    requires 0 < max && max + 1 < WORD
    ensures Overruns(Write(data), Empty, max) <==> |data| == max || |data| == max + 1 || data == ""
  {
    StartEnds([]);
    RoomCheck(max, 0, |data|);
  }

  // Writing a record that fits, from a module whose read index is at the start.
  lemma RecordStep(segs: seq<string>, data: string, next: seq<string>, max: nat)
    requires Clean(segs) && data != "" && NUL !in data && |Flat(segs)| + |data| + 1 <= max && max + 1 < WORD
    requires next == segs + [data[..|data| - 1] + "\n"]
    ensures !Overruns(Write(data), Abs(segs, 0, 0), max)
    ensures Step(Write(data), Abs(segs, 0, 0), max) == (Abs(next, 0, 0), "")
    ensures |Flat(next)| == |Flat(segs)| + |data| + 1
  {
    var record := data[..|data| - 1] + "\n";
    WrittenOne(data);
    RoomCheck(max, |Flat(segs)|, |data|);
    FlatAppend(segs, [record]);
    FlatOne(record);
  }

  /** Two records, read three times: the first, the second and the first again, each with the
      newline its write put at its end and the one the read adds. */
  lemma TwoRecordsRead(one: string, two: string, max: nat)
    requires one != "" && two != "" && NUL !in one && NUL !in two && |one| + |two| + 2 <= max && max + 1 < WORD
    ensures var first, second := one[..|one| - 1] + "\n\n", two[..|two| - 1] + "\n\n";
            Outputs([Write(one)] + ([Write(two)] + [Read, Read, Read]), Empty, max) == ["", "", first, second, first]
  {
    NewlineTwice(one, max);
    NewlineTwice(two, max);
    FiveSteps(one, two, one[..|one| - 1] + "\n", two[..|two| - 1] + "\n", max);
  }

  lemma FiveSteps(one: string, two: string, a: string, b: string, max: nat)
    requires one != "" && two != "" && NUL !in one && NUL !in two && |one| + |two| + 2 <= max && max + 1 < WORD
    requires a == one[..|one| - 1] + "\n" && b == two[..|two| - 1] + "\n"
    ensures var d, e := Delivered(a, max), Delivered(b, max);
            Outputs([Write(one)] + ([Write(two)] + [Read, Read, Read]), Empty, max) == ["", "", d, e, d]
  {
    var three := [Read, Read, Read];
    ThreeReads([a, b], max);
    StartEnds([]);
    WriteFirst([], one, [a], [Write(two)] + three, max);
    WriteFirst([a], two, [a, b], three, max);
    Silent([Delivered(a, max), Delivered(b, max), Delivered(a, max)]);
  }

  lemma Silent(outs: seq<string>)
    requires |outs| == 3
    ensures [""] + ([""] + outs) == ["", "", outs[0], outs[1], outs[2]]
  {
  }

  lemma WriteFirst(segs: seq<string>, data: string, next: seq<string>, rest: seq<Op>, max: nat)
    requires Clean(segs) && data != "" && NUL !in data && |Flat(segs)| + |data| + 1 <= max && max + 1 < WORD
    requires next == segs + [data[..|data| - 1] + "\n"]
    ensures Outputs([Write(data)] + rest, Abs(segs, 0, 0), max) == [""] + Outputs(rest, Abs(next, 0, 0), max)
    ensures |Flat(next)| == |Flat(segs)| + |data| + 1
  {
    RecordStep(segs, data, next, max);
    First(Write(data), rest, Abs(segs, 0, 0), max);
  }

  lemma NewlineTwice(data: string, max: nat)
    requires data != "" && |data| + 1 < max
    ensures var record := data[..|data| - 1] + "\n";
            Delivered(record, max) == record + "\n" == data[..|data| - 1] + "\n\n"
  {
  }

  lemma ThreeReads(segs: seq<string>, max: nat)
    requires |segs| == 2
    ensures Outputs([Read, Read, Read], Abs(segs, 0, 0), max)
            == [Delivered(segs[0], max), Delivered(segs[1], max), Delivered(segs[0], max)]
  {
    ReadStep(segs, 0, max);
    ReadStep(segs, 1, max);
    ReadStep(segs, 2, max);
    First(Read, [Read, Read], Abs(segs, 0, 0), max);
    First(Read, [Read], Abs(segs, 1, 0), max);
    First(Read, [], Abs(segs, 2, 0), max);
  }

  lemma First(op: Op, rest: seq<Op>, a: Abs, max: nat)
    requires !Overruns(op, a, max)
    ensures var r := Step(op, a, max); Outputs([op] + rest, a, max) == [r.1] + Outputs(rest, r.0, max)
  {
    assert ([op] + rest)[1..] == rest;
  }

  // A read at a segment's start, or at the end.
  lemma ReadStep(segs: seq<string>, c: nat, max: nat)
    requires segs != [] && c <= |segs|
    ensures var i := if c == |segs| then 0 else c;
            Step(Read, Abs(segs, c, 0), max) == (Abs(segs, i + 1, 0), Delivered(segs[i], max))
  {
  }
}
