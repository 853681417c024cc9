/** lab_05/src/app1.c: two buffered streams over one descriptor, read in turn. */
module SharedOffset {
  import opened Arithmetic
  import opened Pieces
  import opened OpenFiles

  /** One printed character and the stream it came from. */
  datatype Printed = Printed(stream: int, c: char)

  /** Round r is place Place(B, r) of the pair of blocks that starts at Base(B, r): each
      pair of blocks lasts B rounds. */
  function Place(B: nat, r: nat): nat
    requires B > 0
  {
    if r < B then r else Place(B, r - B)
  }

  function Base(B: nat, r: nat): nat
    requires B > 0
  {
    if r < B then 0 else Base(B, r - B) + 2 * B
  }

  /** The file position the first and the second stream print in round r. */
  function First(B: nat, r: nat): nat
    requires B > 0
  {
    Base(B, r) + Place(B, r)
  }

  function Second(B: nat, r: nat): nat
    requires B > 0
  {
    Base(B, r) + B + Place(B, r)
  }

  /** The positions in closed form. */
  lemma {:induction false} ClosedForm(B: nat, r: nat)
    requires B > 0
    ensures Base(B, r) == 2 * B * (r / B) && Place(B, r) == r % B
    ensures First(B, r) == 2 * B * (r / B) + r % B && Second(B, r) == 2 * B * (r / B) + B + r % B
    decreases r
  {
    if r < B {
      DivideSum(0, B, r);
      assert 2 * B * 0 == 0;
    } else {
      ClosedForm(B, r - B);
      OneMoreBlock(B, r);
    }
  }

  lemma OneMoreBlock(B: nat, r: nat)
    requires 0 < B <= r
    ensures r / B == (r - B) / B + 1 && r % B == (r - B) % B
    ensures 2 * B * (r / B) == 2 * B * ((r - B) / B) + 2 * B
  {
    var b := (r - B) / B;
    assert r - B == b * B + (r - B) % B;
    assert (b + 1) * B == b * B + B;
    DivideSum(b + 1, B, (r - B) % B);
    assert 2 * B * (b + 1) == 2 * B * b + 2 * B;
  }

  lemma {:induction false} NextRound(B: nat, r: nat)
    requires B > 0
    ensures Place(B, r) < B
    ensures if Place(B, r) + 1 == B then Place(B, r + 1) == 0 && Base(B, r + 1) == Base(B, r) + 2 * B
            else Place(B, r + 1) == Place(B, r) + 1 && Base(B, r + 1) == Base(B, r)
    ensures First(B, r) < First(B, r + 1) && First(B, r) >= r
    decreases r
  {
    if r >= B {
      NextRound(B, r - B);
    }
  }

  function RoundOutput(S: string, B: nat, r: nat): seq<Printed>
    requires B > 0 && First(B, r) < |S|
  {
    if Second(B, r) < |S| then [Printed(1, S[First(B, r)]), Printed(2, S[Second(B, r)])]
    else [Printed(1, S[First(B, r)])]
  }

  /** What the rounds from r on print, until one finds the first stream at the end; the second
      stream is never ahead of the first one. */
  function Output(S: string, B: nat, r: nat): seq<Printed>
    requires B > 0
    decreases |S| - r
  {
    FirstAtLeast(B, r);
    if First(B, r) >= |S| then [] else RoundOutput(S, B, r) + Output(S, B, r + 1)
  }

  /** The output, round by round, in the file's own positions. */
  lemma OutputRound(S: string, B: nat, r: nat)
    requires B > 0
    ensures var f := 2 * B * (r / B) + r % B;
            Output(S, B, r)
            == if f >= |S| then []
               else if f + B >= |S| then [Printed(1, S[f])] + Output(S, B, r + 1)
               else [Printed(1, S[f]), Printed(2, S[f + B])] + Output(S, B, r + 1)
  {
    ClosedForm(B, r);
  }

  lemma FirstAtLeast(B: nat, r: nat)
    requires B > 0
    ensures First(B, r) >= r
  {
    NextRound(B, r);
  }

  /** The state between rounds: k rounds into the pair of blocks that starts at `base`, each
      stream still holds the rest of its block, and the offset is past what was fetched. */
  ghost predicate Between(S: string, B: nat, base: nat, k: nat, one: string, two: string, offset: nat) {
    && k < B
    && one == (if k == 0 then "" else Part(S, base + k, base + B))
    && two == (if k == 0 then "" else Part(S, base + B + k, base + 2 * B))
    && offset == Min(if k == 0 then base else base + 2 * B, |S|)
  }

  ghost predicate Ready(S: string, B: nat, r: nat, one: string, two: string, offset: nat)
    requires B > 0
  {
    Between(S, B, Base(B, r), Place(B, r), one, two, offset)
  }

  /** The main program, for any file and any buffer size: every round prints exactly its two
      positions, until nothing is left. */
  method Run(S: string, B: nat) returns (out: seq<Printed>)
    requires B > 0
    ensures out == Output(S, B, 0)
  {
    var file := new OpenFile(S);
    var fs1 := new Stream(file, B);
    var fs2 := new Stream(file, B);
    Begins(S, B);
    out := Rounds(S, B, fs1, fs2);
  }

  // The loop.
  method Rounds(S: string, B: nat, fs1: Stream, fs2: Stream) returns (out: seq<Printed>)
    requires fs1 != fs2 && fs1.file == fs2.file && fs1.size == fs2.size == B > 0 && fs1.file.content == S
    requires fs1.file.Valid() && Ready(S, B, 0, fs1.unread, fs2.unread, fs1.file.offset)
    modifies fs1`unread, fs2`unread, fs1.file`offset
    ensures out == Output(S, B, 0)
  {
    var rc1, rc2 := 1, 1;
    out := [];
    ghost var r: nat := 0;
    LeftNil(Output(S, B, 0));
    while rc1 == 1 || rc2 == 1
      invariant fs1.file.Valid() && Ready(S, B, r, fs1.unread, fs2.unread, fs1.file.offset)
      invariant if rc1 == 1 || rc2 == 1 then r <= |S| && out + Output(S, B, r) == Output(S, B, 0)
                else out == Output(S, B, 0)
      decreases |S| + 1 - r
    {
      ghost var before := out;
      rc1, rc2, out := Round(S, B, fs1, fs2, out, r);
      OneRound(S, B, r, before, out, rc1, rc2);
      r := r + 1;
    }
  }

  // The body of the loop.
  method Round(S: string, B: nat, fs1: Stream, fs2: Stream, before: seq<Printed>, ghost r: nat)
    returns (rc1: int, rc2: int, out: seq<Printed>)
    requires fs1 != fs2 && fs1.file == fs2.file && fs1.size == fs2.size == B > 0 && fs1.file.content == S
    requires fs1.file.Valid() && Ready(S, B, r, fs1.unread, fs2.unread, fs1.file.offset)
    modifies fs1`unread, fs2`unread, fs1.file`offset
    ensures AfterRound(S, B, r, rc1, rc2)
    ensures out == if First(B, r) < |S| then before + RoundOutput(S, B, r) else before
    ensures fs1.file.Valid() && Ready(S, B, r + 1, fs1.unread, fs2.unread, fs1.file.offset)
  {
    ghost var s1, s2 := RoundStep(S, B, r, fs1.unread, fs2.unread, fs1.file.offset);
    out := before;
    var c: char;
    rc1, c := fs1.ScanChar();
    if rc1 == 1 {
      out := out + [Printed(1, c)];
    }
    rc2, c := fs2.ScanChar();
    if rc2 == 1 {
      out := out + [Printed(2, c)];
    }
    if rc1 == 1 {
      assert out == before + RoundOutput(S, B, r);
    }
  }

  lemma Begins(S: string, B: nat)
    requires B > 0
    ensures Ready(S, B, 0, "", "", 0)
  {
  }

  // The loop goes on for at most |S| rounds, and stops when nothing is left to print.
  lemma OneRound(S: string, B: nat, r: nat, before: seq<Printed>, out: seq<Printed>, rc1: int, rc2: int)
    requires B > 0 && AfterRound(S, B, r, rc1, rc2) && before + Output(S, B, r) == Output(S, B, 0)
    requires out == if First(B, r) < |S| then before + RoundOutput(S, B, r) else before
    ensures if rc1 == 1 || rc2 == 1 then r + 1 <= |S| && out + Output(S, B, r + 1) == Output(S, B, 0)
            else out == Output(S, B, 0)
  {
    FirstAtLeast(B, r);
    if First(B, r) < |S| {
      Assoc(before, RoundOutput(S, B, r), Output(S, B, r + 1));
    } else {
      RightNil(before);
    }
  }

  // What the two return codes say after round r.
  ghost predicate AfterRound(S: string, B: nat, r: nat, rc1: int, rc2: int)
    requires B > 0
  {
    (rc1 == 1 <==> First(B, r) < |S|) && (rc2 == 1 <==> Second(B, r) < |S|)
  }

  /** One round on values: both scans print what the formula says, and the state between
      rounds is kept. */
  lemma RoundStep(S: string, B: nat, r: nat, one: string, two: string, offset: nat) returns (s1: Scanned, s2: Scanned)
    requires B > 0 && Ready(S, B, r, one, two, offset)
    ensures s1 == Scan(one, S, offset, B) && s1.offset <= |S| && s2 == Scan(two, S, s1.offset, B)
    ensures AfterRound(S, B, r, s1.rc, s2.rc)
    ensures (s1.rc == 1 ==> s1.c == S[First(B, r)]) && (s2.rc == 1 ==> s2.c == S[Second(B, r)])
    ensures Ready(S, B, r + 1, s1.unread, s2.unread, s2.offset)
  {
    s1 := Scan(one, S, offset, B);
    ReadyScan(S, B, r, one, two, offset);
    s2 := Scan(two, S, s1.offset, B);
    ReadyNext(S, B, r, s1, s2);
  }

  lemma ReadyScan(S: string, B: nat, r: nat, one: string, two: string, offset: nat)
    requires B > 0 && Ready(S, B, r, one, two, offset)
    ensures var s1 := Scan(one, S, offset, B);
            s1.offset <= |S| && Moved(S, B, Base(B, r), Place(B, r), s1, Scan(two, S, s1.offset, B))
  {
    BetweenScan(S, B, Base(B, r), Place(B, r), one, two, offset);
  }

  lemma BetweenScan(S: string, B: nat, base: nat, k: nat, one: string, two: string, offset: nat)
    requires Between(S, B, base, k, one, two, offset)
    ensures var s1 := Scan(one, S, offset, B);
            s1.offset <= |S| && Moved(S, B, base, k, s1, Scan(two, S, s1.offset, B))
  {
    if k == 0 {
      FetchBoth(S, B, base);
    } else {
      RestBoth(S, B, base, k);
    }
  }

  lemma ReadyNext(S: string, B: nat, r: nat, s1: Scanned, s2: Scanned)
    requires B > 0 && Moved(S, B, Base(B, r), Place(B, r), s1, s2)
    ensures Ready(S, B, r + 1, s1.unread, s2.unread, s2.offset) && AfterRound(S, B, r, s1.rc, s2.rc)
    ensures (s1.rc == 1 ==> s1.c == S[First(B, r)]) && (s2.rc == 1 ==> s2.c == S[Second(B, r)])
  {
    NextRound(B, r);
    MovedOn(S, B, Base(B, r), Place(B, r), s1, s2);
  }

  lemma {:induction false} PartCut(S: string, a: nat, b: nat)
    ensures Part(S, a, b) == Part(S, a, Min(b, |S|))
    decreases b - a
  {
    if a < b && a < |S| {
      PartCut(S, a + 1, b);
    }
  }

  // A scan of an empty buffer whose file offset is `a`, or the end of the file.
  lemma ScanFetch(S: string, a: nat, size: nat)
    requires size > 0
    ensures var s := Scan("", S, Min(a, |S|), size);
            && s.offset == Min(a + size, |S|) && s.unread == Part(S, a + 1, a + size)
            && (s.rc == 1 <==> a < |S|) && (s.rc == 1 ==> s.c == S[a])
  {
    if a < |S| {
      PartCut(S, a + 1, a + size);
    }
  }

  // A scan of a buffer that still holds the positions up to `b`, all of them fetched.
  lemma ScanRest(S: string, a: nat, b: nat, end: nat, size: nat)
    requires a < b <= end
    ensures var offset := Min(end, |S|);
            var s := Scan(Part(S, a, b), S, offset, size);
            && s.offset == offset && s.unread == Part(S, a + 1, b)
            && (s.rc == 1 <==> a < |S|) && (s.rc == 1 ==> s.c == S[a])
  {
  }

  // What the two scans of a round leave behind.
  ghost predicate Moved(S: string, B: nat, base: nat, k: nat, s1: Scanned, s2: Scanned) {
    && (s1.rc == 1 <==> base + k < |S|) && (s2.rc == 1 <==> base + B + k < |S|)
    && (s1.rc == 1 ==> s1.c == S[base + k]) && (s2.rc == 1 ==> s2.c == S[base + B + k])
    && s1.unread == Part(S, base + k + 1, base + B) && s2.unread == Part(S, base + B + k + 1, base + 2 * B)
    && s2.offset == Min(base + 2 * B, |S|)
  }

  lemma FetchBoth(S: string, B: nat, base: nat)
    requires B > 0
    ensures var s1 := Scan("", S, Min(base, |S|), B);
            s1.offset <= |S| && Moved(S, B, base, 0, s1, Scan("", S, s1.offset, B))
  {
    ScanFetch(S, base, B);
    ScanFetch(S, base + B, B);
  }

  lemma RestBoth(S: string, B: nat, base: nat, k: nat)
    requires 0 < k < B
    ensures var s1 := Scan(Part(S, base + k, base + B), S, Min(base + 2 * B, |S|), B);
            s1.offset <= |S| && Moved(S, B, base, k, s1, Scan(Part(S, base + B + k, base + 2 * B), S, s1.offset, B))
  {
    ScanRest(S, base + k, base + B, base + 2 * B, B);
    ScanRest(S, base + B + k, base + 2 * B, base + 2 * B, B);
  }

  lemma MovedOn(S: string, B: nat, base: nat, k: nat, s1: Scanned, s2: Scanned)
    requires k < B && Moved(S, B, base, k, s1, s2)
    ensures k + 1 == B ==> Between(S, B, base + 2 * B, 0, s1.unread, s2.unread, s2.offset)
    ensures k + 1 < B ==> Between(S, B, base, k + 1, s1.unread, s2.unread, s2.offset)
  {
  }

  // ---------------------------------------------------------------- nothing lost, nothing twice

  /** Every file position is printed in one round by one stream only. */
  lemma {:induction false} PrintedOnce(B: nat, j: nat)
    requires B > 0
    ensures exists r: nat :: First(B, r) == j || Second(B, r) == j
    ensures forall r: nat, q: nat :: First(B, r) != Second(B, q)
    ensures forall r: nat, q: nat :: r != q ==> First(B, r) != First(B, q) && Second(B, r) != Second(B, q)
  {
    var _ := FindRound(B, j);
    forall r: nat, q: nat ensures First(B, r) != Second(B, q) {
      Separate(B, r, q);
    }
    forall r: nat, q: nat | r != q ensures First(B, r) != First(B, q) && Second(B, r) != Second(B, q) {
      Separate(B, r, q);
    }
  }

  lemma {:induction false} FindRound(B: nat, j: nat) returns (r: nat)
    requires B > 0
    ensures First(B, r) == j || Second(B, r) == j
    decreases j
  {
    if j < B {
      r := j;
    } else if j < 2 * B {
      r := j - B;
    } else {
      var q := FindRound(B, j - 2 * B);
      r := q + B;
    }
  }

  lemma {:induction false} Separate(B: nat, r: nat, q: nat)
    requires B > 0
    ensures First(B, r) != Second(B, q)
    ensures r != q ==> First(B, r) != First(B, q) && Second(B, r) != Second(B, q)
    decreases r + q
  {
    NextRound(B, r);
    NextRound(B, q);
    if r >= B && q >= B {
      Separate(B, r - B, q - B);
    }
  }

  /** The file positions printed from round r on, in order. */
  ghost function Positions(S: string, B: nat, r: nat): seq<nat>
    requires B > 0
    decreases |S| - r
  {
    FirstAtLeast(B, r);
    if First(B, r) >= |S| then [] else RoundPositions(S, B, r) + Positions(S, B, r + 1)
  }

  ghost function RoundPositions(S: string, B: nat, r: nat): seq<nat>
    requires B > 0 && First(B, r) < |S|
  {
    if Second(B, r) < |S| then [First(B, r), Second(B, r)] else [First(B, r)]
  }

  ghost predicate Distinct(s: seq<nat>) {
    forall i, j :: 0 <= i < j < |s| ==> s[i] != s[j]
  }

  // Round q prints position p.
  ghost predicate PrintedIn(S: string, B: nat, q: nat, p: nat)
    requires B > 0
  {
    p < |S| && (First(B, q) == p || Second(B, q) == p)
  }

  lemma {:induction false} FirstGrows(B: nat, r: nat, q: nat)
    requires B > 0 && r <= q
    ensures First(B, r) <= First(B, q) < Second(B, q)
    decreases q
  {
    if r < q {
      FirstGrows(B, r, q - 1);
      NextRound(B, q - 1);
    }
  }

  lemma RoundPositionsAre(S: string, B: nat, r: nat, p: nat)
    requires B > 0 && First(B, r) < |S|
    ensures p in RoundPositions(S, B, r) <==> PrintedIn(S, B, r, p)
  {
  }

  // Round q, not before round r, prints position p.
  ghost predicate PrintedFrom(S: string, B: nat, r: nat, p: nat)
    requires B > 0
  {
    exists q: nat :: r <= q && PrintedIn(S, B, q, p)
  }

  lemma NonePrinted(S: string, B: nat, r: nat, p: nat)
    requires B > 0 && First(B, r) >= |S|
    ensures !PrintedFrom(S, B, r, p)
  {
    forall q: nat | r <= q ensures !PrintedIn(S, B, q, p) {
      FirstGrows(B, r, q);
    }
  }

  lemma PrintedNowOrLater(S: string, B: nat, r: nat, p: nat)
    requires B > 0
    ensures PrintedFrom(S, B, r, p) <==> PrintedIn(S, B, r, p) || PrintedFrom(S, B, r + 1, p)
  {
    if q: nat :| r <= q && PrintedIn(S, B, q, p) {
      assert q == r || r + 1 <= q;
    }
  }

  lemma {:induction false} PositionsAre(S: string, B: nat, r: nat, p: nat)
    requires B > 0
    ensures p in Positions(S, B, r) <==> PrintedFrom(S, B, r, p)
    decreases |S| - r
  {
    FirstAtLeast(B, r);
    if First(B, r) >= |S| {
      NonePrinted(S, B, r, p);
    } else {
      RoundPositionsAre(S, B, r, p);
      PositionsAre(S, B, r + 1, p);
      PrintedNowOrLater(S, B, r, p);
    }
  }

  lemma {:induction false} PositionsDistinct(S: string, B: nat, r: nat)
    requires B > 0
    ensures Distinct(Positions(S, B, r))
    decreases |S| - r
  {
    FirstAtLeast(B, r);
    if First(B, r) < |S| {
      var here, later := RoundPositions(S, B, r), Positions(S, B, r + 1);
      PositionsDistinct(S, B, r + 1);
      Separate(B, r, r);
      forall p | p in here ensures p !in later {
        NotLater(S, B, r, p);
      }
      DistinctConcat(here, later);
    }
  }

  lemma NotLater(S: string, B: nat, r: nat, p: nat)
    requires B > 0 && PrintedIn(S, B, r, p)
    ensures p !in Positions(S, B, r + 1)
  {
    PositionsAre(S, B, r + 1, p);
    if q: nat :| r + 1 <= q && PrintedIn(S, B, q, p) {
      Separate(B, r, q);
      Separate(B, q, r);
    }
  }

  lemma DistinctConcat(s: seq<nat>, t: seq<nat>)
    requires Distinct(s) && Distinct(t) && forall p :: p in s ==> p !in t
    ensures Distinct(s + t)
  {
    var u := s + t;
    forall i, j | 0 <= i < j < |u| ensures u[i] != u[j] {
      if i < |s| <= j {
        assert u[i] in s && u[j] == t[j - |s|];
      }
    }
  }

  // What is printed at each place is the byte at that place's position, by the stream that
  // fetched it: the first one fetches the first block of size B, the second one the next.
  ghost predicate PrintedAt(S: string, B: nat, out: seq<Printed>, ps: seq<nat>)
    requires B > 0
  {
    |out| == |ps| && forall i :: 0 <= i < |ps| ==> PrintedBy(S, B, out[i], ps[i])
  }

  ghost predicate PrintedBy(S: string, B: nat, out: Printed, p: nat)
    requires B > 0
  {
    p < |S| && out.c == S[p] && out.stream == if (p / B) % 2 == 0 then 1 else 2
  }

  // Which block the positions of a round are in.
  lemma BlockOf(B: nat, r: nat)
    requires B > 0
    ensures (First(B, r) / B) % 2 == 0 && (Second(B, r) / B) % 2 == 1
  {
    var q := BaseBlocks(B, r);
    NextRound(B, r);
    BlockParity(Base(B, r), Place(B, r), q, B);
  }

  lemma {:induction false} BaseBlocks(B: nat, r: nat) returns (q: nat)
    requires B > 0
    ensures Base(B, r) == 2 * q * B
    decreases r
  {
    if r < B {
      q := 0;
    } else {
      var before := BaseBlocks(B, r - B);
      q := before + 1;
      assert 2 * q * B == 2 * before * B + 2 * B;
    }
  }

  lemma BlockParity(base: nat, k: nat, q: nat, B: nat)
    requires k < B && base == 2 * q * B
    ensures ((base + k) / B) % 2 == 0 && ((base + B + k) / B) % 2 == 1
  {
    DivideSum(2 * q, B, k);
    assert (2 * q + 1) * B == 2 * q * B + B;
    DivideSum(2 * q + 1, B, k);
  }

  lemma RoundPrinted(S: string, B: nat, r: nat)
    requires B > 0 && First(B, r) < |S|
    ensures PrintedAt(S, B, RoundOutput(S, B, r), RoundPositions(S, B, r))
  {
    BlockOf(B, r);
    TwoPrinted(S, B, First(B, r), Second(B, r));
  }

  lemma TwoPrinted(S: string, B: nat, f: nat, g: nat)
    requires B > 0 && f < |S| && (f / B) % 2 == 0 && (g / B) % 2 == 1
    ensures PrintedAt(S, B, [Printed(1, S[f])], [f])
    ensures g < |S| ==> PrintedAt(S, B, [Printed(1, S[f]), Printed(2, S[g])], [f, g])
  {
    assert PrintedBy(S, B, Printed(1, S[f]), f);
    assert g < |S| ==> PrintedBy(S, B, Printed(2, S[g]), g);
  }

  lemma {:induction false} PositionsPrinted(S: string, B: nat, r: nat)
    requires B > 0
    ensures PrintedAt(S, B, Output(S, B, r), Positions(S, B, r))
    decreases |S| - r
  {
    FirstAtLeast(B, r);
    if First(B, r) < |S| {
      PositionsPrinted(S, B, r + 1);
      RoundPrinted(S, B, r);
      PrintedConcat(S, B, RoundOutput(S, B, r), Output(S, B, r + 1), RoundPositions(S, B, r), Positions(S, B, r + 1));
    }
  }

  lemma PrintedConcat(S: string, B: nat, out: seq<Printed>, more: seq<Printed>, ps: seq<nat>, qs: seq<nat>)
    requires B > 0 && PrintedAt(S, B, out, ps) && PrintedAt(S, B, more, qs)
    ensures PrintedAt(S, B, out + more, ps + qs)
  {
  }

  /** The program prints a permutation of the file: what it prints at place i is the byte of
      file position ps[i], from the stream whose block that is in, and every position of the
      file is among them exactly once. */
  lemma OutputIsPermutation(S: string, B: nat) returns (ps: seq<nat>)
    requires B > 0
    ensures PrintedAt(S, B, Output(S, B, 0), ps)
    ensures Distinct(ps) && forall p: nat :: p < |S| ==> p in ps
  {
    ps := Positions(S, B, 0);
    PositionsDistinct(S, B, 0);
    PositionsPrinted(S, B, 0);
    forall p: nat | p < |S| ensures p in ps {
      var r := FindRound(B, p);
      assert PrintedIn(S, B, r, p);
      PositionsAre(S, B, 0, p);
    }
  }
}
