/** NUL-terminated segments laid out one after the other: what the fortune buffers of
    lab_04/part2 hold. */
module Segments {
  import opened Pieces

  const NUL: char := '\0'

  function Terminated(segs: seq<string>): (r: seq<string>)
    ensures |r| == |segs| && forall i :: 0 <= i < |segs| ==> r[i] == segs[i] + [NUL]
  {
    seq(|segs|, i requires 0 <= i < |segs| => segs[i] + [NUL])
  }

  /** The bytes of a list of segments. */
  function Flat(segs: seq<string>): string { Concat(Terminated(segs)) }

  /** Where segment k starts; the end of the bytes for k = |segs|. */
  function Start(segs: seq<string>, k: nat): nat
    requires k <= |segs|
  {
    Offset(Terminated(segs), k)
  }

  ghost predicate Clean(segs: seq<string>) {
    forall i :: 0 <= i < |segs| ==> NUL !in segs[i]
  }

  /** The segments of a NUL-terminated byte string. */
  function SplitNul(s: string): (r: seq<string>)
    ensures r != [] && Clean(r)
  {
    if s == "" then [""]
    else
      var rest := SplitNul(s[1..]);
      if s[0] == NUL then [""] + rest else [[s[0]] + rest[0]] + rest[1..]
  }

  /** What one write adds: its data with the last byte replaced by a newline, terminated. */
  function Written(data: string): (r: seq<string>)
    requires data != ""
  {
    SplitNul(data[..|data| - 1] + "\n")
  }

  lemma FlatAppend(a: seq<string>, b: seq<string>)
    ensures Flat(a + b) == Flat(a) + Flat(b)
  {
    assert Terminated(a + b) == Terminated(a) + Terminated(b);
    ConcatAppend(Terminated(a), Terminated(b));
  }

  lemma FlatCons(seg: string, rest: seq<string>)
    ensures Flat([seg] + rest) == seg + [NUL] + Flat(rest)
  {
    FlatAppend([seg], rest);
    assert Terminated([seg]) == [] + [seg + [NUL]];
    ConcatSnoc([], seg + [NUL]);
    assert Concat([]) + (seg + [NUL]) == seg + [NUL];
  }

  lemma FlatPrepend(c: char, rest: seq<string>)
    requires rest != []
    ensures Flat([[c] + rest[0]] + rest[1..]) == [c] + Flat(rest)
  {
    FlatCons([c] + rest[0], rest[1..]);
    FlatCons(rest[0], rest[1..]);
    assert [rest[0]] + rest[1..] == rest;
    var tail := [NUL] + Flat(rest[1..]);
    assert [c] + rest[0] + [NUL] + Flat(rest[1..]) == [c] + (rest[0] + [NUL] + Flat(rest[1..]));
  }

  /** Splitting loses nothing: the segments' bytes are the data and the final NUL. */
  lemma {:induction false} FlatSplit(s: string)
    ensures Flat(SplitNul(s)) == s + [NUL]
  {
    if s == "" {
      FlatCons("", []);
      assert [""] + [] == [""];
    } else {
      var rest := SplitNul(s[1..]);
      FlatSplit(s[1..]);
      if s[0] == NUL {
        FlatCons("", rest);
        LeftNil([NUL]);
      } else {
        FlatPrepend(s[0], rest);
      }
      assert [s[0]] + s[1..] == s;
      Assoc([s[0]], s[1..], [NUL]);
    }
  }

  /** A record without NULs is one segment. */
  lemma {:induction false} SplitOne(s: string)
    requires NUL !in s
    ensures SplitNul(s) == [s]
  {
    if s != "" {
      SplitOne(s[1..]);
      assert [s[0]] + s[1..] == s;
    }
  }

  lemma WrittenOne(data: string)
    requires data != "" && NUL !in data
    ensures Written(data) == [data[..|data| - 1] + "\n"]
  {
    SplitOne(data[..|data| - 1] + "\n");
  }

  /** Segment k as a C string in a buffer that holds the segments. */
  lemma SegmentHere(s: string, segs: seq<string>, k: nat)
    requires Clean(segs) && k < |segs| && Flat(segs) <= s
    ensures Start(segs, k) + |segs[k]| + 1 == Start(segs, k + 1) <= |Flat(segs)|
    ensures CString(s, Start(segs, k)) == segs[k]
  {
    var ts, at := Terminated(segs), Start(segs, k);
    ConcatPiece(ts, k);
    PieceInPrefix(s, Flat(segs), at, ts[k]);
    PieceSplit(s, at, segs[k], [NUL]);
    PieceChars(s, at + |segs[k]|, [NUL]);
    CStringIs(s, at, segs[k]);
  }

  lemma StartEnds(segs: seq<string>)
    ensures Start(segs, 0) == 0 && Start(segs, |segs|) == |Flat(segs)|
  {
    OffsetEnds(Terminated(segs));
  }

  /** Appending segments moves no start. */
  lemma StartAppend(a: seq<string>, b: seq<string>, k: nat)
    requires k <= |a|
    ensures Start(a + b, k) == Start(a, k)
  {
    assert Terminated(a + b)[..k] == Terminated(a)[..k];
  }

  /** A cursor strictly before the end is a strictly smaller offset. */
  lemma {:induction false} StartBelow(segs: seq<string>, k: nat)
    requires k < |segs|
    ensures Start(segs, k) < |Flat(segs)|
    decreases |segs| - k
  {
    ConcatPiece(Terminated(segs), k);
    if k + 1 == |segs| {
      StartEnds(segs);
    } else {
      StartBelow(segs, k + 1);
    }
  }

  // ---------------------------------------------------------------- the room check

  const ENOSPC := 28

  /** How a write ends.  An overrun is a record that the check admits although it does not fit:
      the source then stores outside the buffer, and the model stops instead. */
  datatype Outcome = Returned(rc: int) | Overrun

  // One more than the largest value of the source's unsigned arithmetic.
  const WORD: nat := 0x1_0000_0000_0000_0000

  /** The check both modules make before storing `len` bytes, in unsigned arithmetic. */
  predicate Accepted(max: nat, writeInd: nat, len: nat) {
    !(len > (max - writeInd + 1) % WORD)
  }

  /** The stores stay inside the buffer: bytes writeInd-1+len and writeInd+len exist. */
  predicate InBounds(max: nat, writeInd: nat, len: nat) {
    writeInd + len + 1 <= max && writeInd + len > 0
  }

  /** Everything that fits is admitted.  Of what does not fit, the check admits exactly two
      lengths too many and a first record of length zero; and when a record of those two
      lengths has moved the write index past the end, the subtraction wraps at max + 2.  (The
      models stop at the first such record, so this last case is about the check alone.) */
  lemma RoomCheck(max: nat, writeInd: nat, len: nat)
    requires max + 1 < 0x1_0000_0000_0000_0000 && writeInd < 0x1_0000_0000_0000_0000
    ensures InBounds(max, writeInd, len) <==> writeInd + len + 1 <= max && writeInd + len >= 1
    ensures InBounds(max, writeInd, len) ==> Accepted(max, writeInd, len)
    ensures Accepted(max, writeInd, len) && !InBounds(max, writeInd, len) <==>
            if writeInd <= max + 1
            then len == max - writeInd || len == max - writeInd + 1 || (len == 0 && writeInd == 0)
            else len <= 0x1_0000_0000_0000_0000 - (writeInd - max - 1)
  {
    if writeInd <= max + 1 {
      assert (max - writeInd + 1) % WORD == max - writeInd + 1;
    } else {
      assert (max - writeInd + 1) % WORD == max - writeInd + 1 + WORD;
    }
  }

  // ---------------------------------------------------------------- what a buffer stands for

  /** The segments written so far, and a read position `skip` characters into the segment
      under the cursor; past the last segment, the position is the end of the bytes. */
  datatype Abs = Abs(segs: seq<string>, cursor: nat, skip: nat)

  const Empty := Abs([], 0, 0)

  ghost predicate Proper(a: Abs) {
    && Clean(a.segs) && a.cursor <= |a.segs|
    && a.skip <= if a.cursor < |a.segs| then |a.segs[a.cursor]| else 0
  }

  /** The read index. */
  function Position(a: Abs): nat
    requires a.cursor <= |a.segs|
  {
    Start(a.segs, a.cursor) + a.skip
  }

  /** The C string at the read position. */
  function Text(a: Abs): string {
    if a.cursor < |a.segs| && a.skip <= |a.segs[a.cursor]| then a.segs[a.cursor][a.skip..] else ""
  }

  /** Past the last segment, the position goes back to the start. */
  function Rewound(a: Abs): Abs {
    if a.cursor >= |a.segs| then Abs(a.segs, 0, 0) else a
  }

  /** The state after a write that fits.  An empty write adds no segment: it makes the last one
      longer by a newline, and a position past it is then at its end, not past it. */
  function Stored(a: Abs, data: string): Abs {
    var n := |a.segs|;
    if data != "" then a.(segs := a.segs + Written(data))
    else if n == 0 then a
    else
      var longer := Lengthened(a.segs);
      if a.cursor < n then a.(segs := longer) else Abs(longer, n - 1, |longer[n - 1]|)
  }

  function Lengthened(segs: seq<string>): (r: seq<string>)
    requires segs != []
  {
    segs[|segs| - 1 := segs[|segs| - 1] + "\n"]
  }

  /** The bytes after the stores of a write that fits. */
  function Extended(bytes: string, data: string): string
    requires data != "" || bytes != ""
  {
    if data != "" then bytes + (data[..|data| - 1] + "\n" + [NUL]) else bytes[|bytes| - 1 := '\n'] + [NUL]
  }

  /** The stores themselves, as both modules make them: the data, a newline over its last byte,
      and a NUL. */
  method StoreRecord(buffer: array<char>, writeInd: nat, data: string) returns (next: nat)
    requires InBounds(buffer.Length, writeInd, |data|)
    modifies buffer
    ensures next == writeInd + |data| + 1
    ensures buffer[..next] == Extended(old(buffer[..writeInd]), data)
    ensures forall k :: next <= k < buffer.Length ==> buffer[k] == old(buffer[k])
  {
    ghost var before := buffer[..writeInd];
    forall k | 0 <= k < |data| {
      buffer[writeInd + k] := data[k];
    }
    next := writeInd + |data|;
    buffer[next - 1] := '\n';
    buffer[next] := NUL;
    next := next + 1;
    forall k | 0 <= k < next ensures buffer[k] == Extended(before, data)[k] {
    }
  }

  /** The stores of a write that fits keep the buffer in step with its segments, and the read
      index where it is. */
  lemma WriteStores(a: Abs, data: string)
    requires Proper(a) && (data != "" || a.segs != [])
    ensures Flat(a.segs) == "" ==> a.segs == []
    ensures Flat(Stored(a, data).segs) == Extended(Flat(a.segs), data)
    ensures Proper(Stored(a, data)) && Position(Stored(a, data)) == Position(a)
  {
    BytesPresent(a.segs);
    if data != "" {
      AppendStores(a, data);
    } else {
      LengthenStores(a);
    }
  }

  lemma BytesPresent(segs: seq<string>)
    ensures Flat(segs) == "" ==> segs == []
  {
    if segs != [] {
      StartBelow(segs, 0);
    }
  }

  lemma LengthenStores(a: Abs)
    requires Proper(a) && a.segs != []
    ensures Flat(Stored(a, "").segs) == Extended(Flat(a.segs), "")
    ensures Proper(Stored(a, "")) && Position(Stored(a, "")) == Position(a)
  {
    StartEnds(a.segs);
    LengthenedBytes(a.segs);
    LengthenedStarts(a.segs);
  }

  lemma AppendStores(a: Abs, data: string)
    requires Proper(a) && data != ""
    ensures Flat(Stored(a, data).segs) == Extended(Flat(a.segs), data)
    ensures Proper(Stored(a, data)) && Position(Stored(a, data)) == Position(a)
  {
    FlatSplit(data[..|data| - 1] + "\n");
    FlatAppend(a.segs, Written(data));
    StartAppend(a.segs, Written(data), a.cursor);
  }

  /** The segment under the cursor, from the read position on, is the C string a buffer that
      holds the segments has there. */
  lemma TextHere(s: string, a: Abs)
    requires Proper(a) && a.cursor < |a.segs| && Flat(a.segs) <= s
    ensures Position(a) + |Text(a)| + 1 == Start(a.segs, a.cursor + 1) <= |Flat(a.segs)|
    ensures CString(s, Position(a)) == Text(a)
  {
    var at, seg := Start(a.segs, a.cursor), a.segs[a.cursor];
    SegmentHere(s, a.segs, a.cursor);
    CStringTail(s, at, seg, a.skip);
  }

  /** Inside the buffer's bytes exactly when the cursor has a segment. */
  lemma PositionBelow(a: Abs)
    requires Proper(a)
    ensures Position(a) < |Flat(a.segs)| <==> a.cursor < |a.segs|
    ensures a.cursor == |a.segs| ==> Position(a) == |Flat(a.segs)|
  {
    StartEnds(a.segs);
    if a.cursor < |a.segs| {
      SegmentHere(Flat(a.segs), a.segs, a.cursor);
    }
  }

  /** The read index is a segment's start, or the end, exactly when nothing is skipped. */
  lemma OnBoundary(a: Abs)
    requires Proper(a)
    ensures (exists k: nat :: k <= |a.segs| && Start(a.segs, k) == Position(a)) <==> a.skip == 0
  {
    if a.skip == 0 {
      assert Start(a.segs, a.cursor) == Position(a);
    } else {
      forall k: nat | k <= |a.segs| ensures Start(a.segs, k) != Position(a) {
        if k <= a.cursor {
          StartsAscend(a.segs, k, a.cursor);
        } else {
          SegmentHere(Flat(a.segs), a.segs, a.cursor);
          StartsAscend(a.segs, a.cursor + 1, k);
        }
      }
    }
  }

  lemma {:induction false} StartsAscend(segs: seq<string>, i: nat, j: nat)
    requires i <= j <= |segs|
    ensures Start(segs, i) <= Start(segs, j)
    decreases j - i
  {
    if i < j {
      ConcatPiece(Terminated(segs), i);
      StartsAscend(segs, i + 1, j);
    }
  }

  /** An empty write makes the last segment longer by a newline.  The read index then is a
      segment's start, or the end, exactly when it was the start of a segment before: neither
      the end nor inside a segment. */
  lemma ZeroLengthWrite(a: Abs)
    requires Proper(a) && a.segs != []
    ensures var w := |Flat(a.segs)|; var b := Stored(a, "");
            && b.segs == Lengthened(a.segs) && w > 0 && Flat(b.segs) == Flat(a.segs)[w - 1 := '\n'] + [NUL]
            && ((exists k: nat :: k <= |b.segs| && Start(b.segs, k) == Position(a))
                <==> a.cursor < |a.segs| && a.skip == 0)
  {
    LengthenedBytes(a.segs);
    LengthenStores(a);
    OnBoundary(Stored(a, ""));
  }

  lemma FlatOne(seg: string)
    ensures Flat([seg]) == seg + [NUL]
  {
    assert [seg] + [] == [seg];
    FlatCons(seg, []);
    RightNil(seg + [NUL]);
  }

  lemma LengthenedBytes(segs: seq<string>)
    requires segs != []
    ensures var w := |Flat(segs)|; w > 0 && Flat(Lengthened(segs)) == Flat(segs)[w - 1 := '\n'] + [NUL]
  {
    var n := |segs| - 1;
    var init, last := segs[..n], segs[n];
    assert segs == init + [last] && Lengthened(segs) == init + [last + "\n"];
    FlatAppend(init, [last]);
    FlatAppend(init, [last + "\n"]);
    FlatOne(last);
    FlatOne(last + "\n");
    var bytes, head := Flat(segs), Flat(init) + last;
    Assoc(Flat(init), last, [NUL]);
    assert bytes == head + [NUL];
    assert Flat(init) + (last + "\n" + [NUL]) == head + "\n" + [NUL];
    assert (head + [NUL])[|head| := '\n'] == head + "\n";
  }

  lemma LengthenedStarts(segs: seq<string>)
    requires segs != []
    ensures forall k :: 0 <= k < |segs| ==> Start(Lengthened(segs), k) == Start(segs, k)
    ensures Start(segs, |segs| - 1) + |segs[|segs| - 1]| + 1 == |Flat(segs)|
  {
    var n := |segs| - 1;
    var init, last := segs[..n], segs[n];
    assert segs == init + [last] && Lengthened(segs) == init + [last + "\n"];
    forall k | 0 <= k < |segs| ensures Start(Lengthened(segs), k) == Start(segs, k) {
      StartAppend(init, [last], k);
      StartAppend(init, [last + "\n"], k);
    }
    ConcatPiece(Terminated(segs), n);
    StartEnds(segs);
  }
}
