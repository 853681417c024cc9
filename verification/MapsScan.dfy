/** What the scanner of lab_04/part1/lib/output_funcs.c finds in its buffer, as functions of the
    buffer's bytes, whatever they are; and what it finds where rendered lines stand. */
module MapsScan {
  import opened Arithmetic
  import opened Pagemap
  import opened Pieces
  import opened MapsFormat
  import opened PageSweep

  // What a 64-bit variable holds after being assigned n.
  function Word64(n: nat): nat { if n < TWO64 then n else n % TWO64 }

  // ---------------------------------------------------------------- the loops of the scan

  /** The first position from `from` on that holds `stop`; past the end when there is none. */
  function Find(s: string, from: nat, stop: char): (x: nat)
    requires from <= |s|
    ensures from <= x <= |s| && (x < |s| ==> s[x] == stop)
    ensures forall k :: from <= k < x ==> s[k] != stop
    decreases |s| - from
  {
    if from == |s| || s[from] == stop then from else Find(s, from + 1, stop)
  }

  /** The first position from `from` on that is no blank; past the end when there is none. */
  function PastBlanks(s: string, from: nat): (x: nat)
    requires from <= |s|
    ensures from <= x <= |s| && (x < |s| ==> s[x] != ' ')
    ensures forall k :: from <= k < x ==> s[k] == ' '
    decreases |s| - from
  {
    if from == |s| || s[from] != ' ' then from else PastBlanks(s, from + 1)
  }

  // The backward loop.
  function Back(s: string, x: nat): (r: nat)
    requires x < |s|
    ensures r <= x && (s[r] == '\n' || r == 0)
    ensures forall k :: r < k <= x ==> s[k] != '\n'
  {
    if x == 0 || s[x] == '\n' then x else Back(s, x - 1)
  }

  /** Where the line ending before position i + 1 begins. */
  function LineBegin(s: string, i: nat): (x: nat)
    requires 0 < i < |s|
    ensures x <= i
  {
    var x := Back(s, i - 1);
    if s[x] == '\n' then x + 1 else x
  }

  /** A hexadecimal number: the accumulated word, and where the loop ends: at `stop`, after the
      first character that is no digit, or past the end. */
  function HexScan(s: string, from: nat, stop: char, v: nat): (r: (nat, nat))
    requires from <= |s|
    ensures from <= r.1 <= |s|
    ensures v < TWO64 ==> r.0 < TWO64
    decreases |s| - from
  {
    if from == |s| || s[from] == stop then (v, from)
    else if IsHexDigit(s[from]) then HexScan(s, from + 1, stop, Word64(Word64(v * 16) + DigitValue(s[from])))
    else (Word64(v * 16), from + 1)
  }

  /** n fields skipped, from the separator before them to the one after. */
  function Fields(s: string, x: nat, n: nat): (r: nat)
    requires x <= |s|
    ensures x <= r <= |s|
    decreases |s| - x
  {
    if n == 0 || x == |s| then x else Fields(s, Find(s, x + 1, ' '), n - 1)
  }

  // ---------------------------------------------------------------- one newline

  /** The scan of one line: it leaves the buffer, or it finds a range and the name x..y. */
  datatype Scan = Outside | Inside(low: nat, high: nat, x: nat, y: nat)

  /** The whole scan, triggered by the newline at i.  It leaves the buffer as soon as one of its
      loops gets to the end: the loops read the byte before they check the index. */
  function ScanAt(s: string, i: nat): (r: Scan)
    requires 0 < i < |s|
    ensures r.Inside? ==> r.low < TWO64 && r.high < TWO64 && r.x <= r.y < |s| && s[r.y] == '\n'
  {
    var (low, x) := HexScan(s, LineBegin(s, i), '-', 0);
    AfterLow(s, low, x)
  }

  // The scan from the end of the first number on.
  function AfterLow(s: string, low: nat, x: nat): (r: Scan)
    requires low < TWO64 && x <= |s|
    ensures r.Inside? ==> r.low == low && r.high < TWO64 && r.x <= r.y < |s| && s[r.y] == '\n'
  {
    var dash := Find(s, x, '-');
    if dash == |s| then Outside
    else
      var (high, afterHigh) := HexScan(s, dash + 1, ' ', 0);
      NameScan(s, low, high, Fields(s, afterHigh, 4))
  }

  // The end of the scan, from the blank after the fields.
  function NameScan(s: string, low: nat, high: nat, last: nat): (r: Scan)
    requires low < TWO64 && high < TWO64 && last <= |s|
    ensures r.Inside? ==> r.low == low && r.high == high && r.x <= r.y < |s| && s[r.y] == '\n'
  {
    var x := PastBlanks(s, last);
    var y := Find(s, x, '\n');
    if y == |s| then Outside else Inside(low, high, x, y)
  }

  /** What handling a newline comes to: a scan that leaves the buffer, a sweep that never ends,
      or the mapping that was swept. */
  datatype Outcome = Overrun | Forever | Swept(m: Mapping)

  function OutcomeAt(s: string, i: nat, page: nat): Outcome
    requires 0 < i < |s| && page > 0
  {
    match ScanAt(s, i)
    case Outside => Overrun
    case Inside(low, high, x, y) =>
      if NoWrap(low, high, page) then Swept(Mapping(low, high, CString(s[y := '\0'], x))) else Forever
  }

  // ---------------------------------------------------------------- one buffer, and all reads

  /** The mappings swept, in order, and whether that went on to the end. */
  datatype Found = Found(ms: seq<Mapping>, complete: bool)

  /** What one outcome makes of what is found after it. */
  function Then(o: Outcome, rest: Found): Found {
    if o.Swept? then Found([o.m] + rest.ms, rest.complete) else Found([], false)
  }

  /** The outcome of every newline of a buffer, should the loop get there. */
  function Outcomes(s: string, page: nat): nat -> Outcome
    requires page > 0
  {
    i => if 0 < i < |s| then OutcomeAt(s, i, page) else Overrun
  }

  /** What the loop over positions i to `length` finds, given the outcomes. */
  function Scans(s: string, i: nat, length: nat, outcomes: nat -> Outcome): Found
    requires i <= length <= |s|
    decreases length - i
  {
    if i == length then Found([], true)
    else
      var rest := Scans(s, i + 1, length, outcomes);
      if s[i] == '\n' && i != 0 then Then(outcomes(i), rest) else rest
  }

  /** The buffer after a read: the delivered text overwrites its start. */
  function Refilled(s: string, text: string): (r: string)
    requires |text| <= |s|
    ensures |r| == |s| && text <= r && r[|text|..] == s[|text|..]
  {
    text + s[|text|..]
  }

  ghost predicate Fit(texts: seq<string>, size: nat) {
    forall c :: 0 <= c < |texts| ==> 0 < |texts[c]| <= size
  }

  /** What all reads together find, from a buffer that holds `s` at first. */
  ghost function AllScans(s: string, texts: seq<string>, page: nat): Found
    requires Fit(texts, |s|) && page > 0
    decreases |texts|
  {
    if texts == [] then Found([], true)
    else
      var t := Refilled(s, texts[0]);
      var here := Scans(t, 0, |texts[0]|, Outcomes(t, page));
      if !here.complete then here
      else
        var rest := AllScans(t, texts[1..], page);
        Found(here.ms + rest.ms, rest.complete)
  }

  // ---------------------------------------------------------------- rendered lines

  // The value of digits read one by one, after v.
  function HexFrom(v: nat, digits: string): nat
    requires IsHex(digits)
    decreases |digits|
  {
    if digits == "" then v else HexFrom(16 * v + DigitValue(digits[0]), digits[1..])
  }

  /** Reading digits from the left gives their value. */
  lemma {:induction false} HexFromValue(read: string, digits: string)
    requires IsHex(read) && IsHex(digits)
    ensures IsHex(read + digits) && HexFrom(HexValue(read), digits) == HexValue(read + digits)
    decreases |digits|
  {
    if digits == "" {
      RightNil(read);
    } else {
      var more := read + [digits[0]];
      assert more[..|more| - 1] == read;
      HexFromValue(more, digits[1..]);
      assert more + digits[1..] == read + digits;
    }
  }

  lemma WordIs(n: nat)
    ensures Word64(n) == n % TWO64
  {
  }

  // Shifting by a digit, up to multiples of 2^64.
  lemma WordShift(v: nat, d: nat)
    ensures (16 * (v % TWO64) + d) % TWO64 == (16 * v + d) % TWO64
  {
    var q, r := v / TWO64, v % TWO64;
    assert v == q * TWO64 + r;
    assert 16 * v + d == 16 * r + d + 16 * q * TWO64;
    ModMultiples(16 * r + d, 16 * q, TWO64);
  }

  // One digit, on a word that holds v up to multiples of 2^64.
  lemma WordStep(v: nat, d: nat)
    ensures Word64(16 * (v % TWO64)) == 16 * v % TWO64
    ensures Word64(Word64(16 * (v % TWO64)) + d) == (16 * v + d) % TWO64
  {
    var w := 16 * (v % TWO64);
    WordIs(w);
    WordIs(w % TWO64 + d);
    WordShift(v, 0);
    WordShift(v, d);
    var q, r := w / TWO64, w % TWO64;
    assert w == q * TWO64 + r;
    ModMultiples(r + d, q, TWO64);
  }

  /** The digits from x to k, and what stands at k.  Separators are left standing; any other
      character is taken in, and shifts the number by one more digit.  All of it is exact up to
      multiples of 2^64. */
  lemma {:induction false} HexScanDigits(s: string, x: nat, k: nat, stop: char, v: nat)
    requires x <= k < |s| && IsHex(s[x..k]) && !IsHexDigit(s[k]) && !IsHexDigit(stop)
    ensures var n := HexFrom(v, s[x..k]);
            HexScan(s, x, stop, v % TWO64)
            == if s[k] == stop then (n % 0x1_0000_0000_0000_0000, k) else (16 * n % 0x1_0000_0000_0000_0000, k + 1)
    decreases k - x
  {
    if x < k {
      var digits := s[x..k];
      assert s[x] == digits[0] && s[x + 1..k] == digits[1..];
      WordStep(v, DigitValue(s[x]));
      HexScanDigits(s, x + 1, k, stop, 16 * v + DigitValue(s[x]));
    } else {
      WordStep(v, 0);
    }
  }

  lemma HexScanValue(s: string, from: nat, k: nat, stop: char)
    requires from <= k < |s| && IsHex(s[from..k]) && !IsHexDigit(s[k]) && !IsHexDigit(stop)
    ensures var n := HexValue(s[from..k]);
            HexScan(s, from, stop, 0)
            == if s[k] == stop then (n % 0x1_0000_0000_0000_0000, k) else (16 * n % 0x1_0000_0000_0000_0000, k + 1)
  {
    HexFromValue("", s[from..k]);
    LeftNil(s[from..k]);
    HexScanDigits(s, from, k, stop, 0);
  }

  lemma HexScanNumber(s: string, from: nat, e: nat, stop: char)
    requires from <= e < |s| && s[e] == stop && !IsHexDigit(stop)
    requires IsHex(s[from..e]) && HexValue(s[from..e]) < TWO64
    ensures HexScan(s, from, stop, 0) == (HexValue(s[from..e]), e)
  {
    HexScanValue(s, from, e, stop);
  }

  // A line's start, which is the buffer's, or follows a newline.
  ghost predicate AtStart(s: string, at: nat) {
    at == 0 || (at <= |s| && s[at - 1] == '\n')
  }

  lemma LineBeginIs(s: string, i: nat, at: nat)
    requires at < i < |s| && AtStart(s, at) && forall k :: at <= k < i ==> s[k] != '\n'
    ensures LineBegin(s, i) == at
  {
    var x := Back(s, i - 1);
    assert s[i - 1] != '\n';
  }

  lemma FieldsAre(s: string, l: MapLine, at: nat)
    requires |l.fields| == 4 && RangeEnd(l, at) < |s| && forall f :: 0 <= f < 4 ==> FieldGap(s, l, at, f)
    ensures FieldEnd(l, at, 4) < |s| && Fields(s, RangeEnd(l, at), 4) == FieldEnd(l, at, 4)
  {
    FieldIs(s, l, at, 3, 0);
    FieldIs(s, l, at, 2, 1);
    FieldIs(s, l, at, 1, 2);
    FieldIs(s, l, at, 0, 3);
  }

  // Skipping field f, and n more after it.
  lemma FieldIs(s: string, l: MapLine, at: nat, f: nat, n: nat)
    requires f < |l.fields| && FieldGap(s, l, at, f)
    ensures FieldEnd(l, at, f) < FieldEnd(l, at, f + 1) < |s|
    ensures Fields(s, FieldEnd(l, at, f), n + 1) == Fields(s, FieldEnd(l, at, f + 1), n)
  {
  }

  /** Where a rendered line stands, its newline triggers a scan that finds its range and its
      name, and ends at that newline. */
  lemma LineScanned(s: string, l: MapLine, at: nat)
    requires LineFacts(s, l, at) && AtStart(s, at)
    ensures var i := NewlineAt(l, at);
            0 < i < |s| && ScanAt(s, i) == Inside(l.low, l.high, NameAt(l, at), i)
  {
    var i, dash := NewlineAt(l, at), DashAt(l, at);
    LineLayout(s, l, at);
    LineBeginIs(s, i, at);
    HexScanNumber(s, at, dash, '-');
    RestScanned(s, l, at, l.low, dash);
  }

  // From a dash on, whatever number came before it.
  lemma RestScanned(s: string, l: MapLine, at: nat, low: nat, x: nat)
    requires LineFacts(s, l, at) && low < TWO64 && x <= |s| && Find(s, x, '-') == DashAt(l, at)
    ensures AfterLow(s, low, x) == Inside(low, l.high, NameAt(l, at), NewlineAt(l, at))
  {
    var dash, end, last := DashAt(l, at), RangeEnd(l, at), FieldEnd(l, at, 4);
    HighScanned(s, l, at, dash, end);
    FieldsAre(s, l, at);
    NameScanned(s, low, l, last, NameAt(l, at), NewlineAt(l, at));
    Scanned(s, low, x, dash, l.high, end, last);
  }

  lemma HighScanned(s: string, l: MapLine, at: nat, dash: nat, end: nat)
    requires RangeFacts(s, l, at, dash, end)
    ensures dash < end < |s| && HexScan(s, dash + 1, ' ', 0) == (l.high, end)
  {
    HexScanNumber(s, dash + 1, end, ' ');
  }

  // The parts of the scan, put together.
  lemma Scanned(s: string, low: nat, x: nat, dash: nat, high: nat, end: nat, last: nat)
    requires low < TWO64 && high < TWO64 && x <= |s| && Find(s, x, '-') == dash < end < |s| && last < |s|
    requires HexScan(s, dash + 1, ' ', 0) == (high, end) && Fields(s, end, 4) == last
    ensures AfterLow(s, low, x) == NameScan(s, low, high, last)
  {
  }

  lemma NameScanned(s: string, low: nat, l: MapLine, last: nat, x: nat, y: nat)
    requires NameFacts(s, l, last, x, y) && low < TWO64 && l.high < TWO64
    ensures NameScan(s, low, l.high, last) == Inside(low, l.high, x, y)
  {
    assert PastBlanks(s, last) == x;
    assert Find(s, x, '\n') == y;
  }

  function MappingOf(l: MapLine): Mapping { Mapping(l.low, l.high, l.name) }

  function MappingsOf(ls: seq<MapLine>): (ms: seq<Mapping>)
    ensures |ms| == |ls| && forall j :: 0 <= j < |ls| ==> ms[j] == MappingOf(ls[j])
  {
    if ls == [] then [] else [MappingOf(ls[0])] + MappingsOf(ls[1..])
  }

  lemma LineSwept(s: string, l: MapLine, at: nat, page: nat)
    requires LineFacts(s, l, at) && AtStart(s, at) && page > 0 && NoWrap(l.low, l.high, page)
    ensures var i := NewlineAt(l, at); 0 < i < |s| && OutcomeAt(s, i, page) == Swept(MappingOf(l))
  {
    var i, x := NewlineAt(l, at), NameAt(l, at);
    LineScanned(s, l, at);
    NameTerminated(s, l, FieldEnd(l, at, 4), x, i);
  }

  /** A line whose range wraps starts a sweep that never ends. */
  lemma WrappingLine(s: string, l: MapLine, at: nat, page: nat)
    requires LineFacts(s, l, at) && AtStart(s, at) && page > 0 && !NoWrap(l.low, l.high, page)
    ensures var i := NewlineAt(l, at); 0 < i < |s| && OutcomeAt(s, i, page) == Forever
  {
    LineScanned(s, l, at);
  }

  /** The scan of a line leaves the buffer when there is no dash from its beginning on. */
  lemma ScanLeaves(s: string, i: nat, page: nat)
    requires 0 < i < |s| && page > 0
    requires forall p :: LineBegin(s, i) <= p < |s| ==> s[p] != '-'
    ensures OutcomeAt(s, i, page) == Overrun
  {
  }

  // With the newline overwritten, the name is the C string at its start.
  lemma NameTerminated(s: string, l: MapLine, last: nat, x: nat, y: nat)
    requires NameFacts(s, l, last, x, y)
    ensures CString(s[y := '\0'], x) == l.name
  {
    var t := s[y := '\0'];
    assert t[x..y] == s[x..y] == l.name;
    CStringIs(t, x, l.name);
  }

  // ---------------------------------------------------------------- lines one after the other

  ghost predicate Sweepable(ls: seq<MapLine>, page: nat)
    requires page > 0
  {
    ValidLines(ls) && forall j :: 0 <= j < |ls| ==> NoWrap(ls[j].low, ls[j].high, page)
  }

  // Positions without a newline are passed over.
  lemma {:induction false} ScansSkip(s: string, i: nat, k: nat, length: nat, outcomes: nat -> Outcome)
    requires i <= k <= length <= |s| && forall p :: i <= p < k ==> s[p] != '\n'
    ensures Scans(s, i, length, outcomes) == Scans(s, k, length, outcomes)
    decreases k - i
  {
    if i < k {
      ScansSkip(s, i + 1, k, length, outcomes);
    }
  }

  // Up to the next newline, and past it.
  lemma ScansNewline(s: string, i: nat, k: nat, length: nat, outcomes: nat -> Outcome)
    requires i <= k < length <= |s| && s[k] == '\n' && forall p :: i <= p < k ==> s[p] != '\n'
    ensures var rest := Scans(s, k + 1, length, outcomes);
            Scans(s, i, length, outcomes) == if k == 0 then rest else Then(outcomes(k), rest)
  {
    ScansSkip(s, i, k, length, outcomes);
  }

  // Line j stands at starts[j], and the next one starts after its newline.
  ghost predicate LineIn(s: string, starts: seq<nat>, ls: seq<MapLine>, j: nat) {
    && j < |ls| && |starts| == |ls| + 1
    && LineFacts(s, ls[j], starts[j])
    && starts[j + 1] == NewlineAt(ls[j], starts[j]) + 1
  }

  /** The lines stand in the buffer one after the other. */
  ghost predicate Laid(s: string, starts: seq<nat>, ls: seq<MapLine>) {
    |starts| == |ls| + 1 && forall j :: 0 <= j < |ls| ==> LineIn(s, starts, ls, j)
  }

  // Wherever the text stands, so does the line.
  ghost predicate Stands(s: string, text: string, l: MapLine) {
    forall at: nat :: Piece(s, at, text) ==> LineFacts(s, l, at) && NewlineAt(l, at) + 1 == at + |text|
  }

  ghost predicate AllStand(s: string, texts: seq<string>, ls: seq<MapLine>) {
    |texts| == |ls| && forall j :: 0 <= j < |ls| ==> Stands(s, texts[j], ls[j])
  }

  lemma RenderedStand(s: string, ls: seq<MapLine>)
    requires ValidLines(ls)
    ensures AllStand(s, Rendered(ls), ls)
  {
    forall j | 0 <= j < |ls| ensures Stands(s, Rendered(ls)[j], ls[j]) {
      LineStands(s, ls[j]);
    }
  }

  lemma LineStands(s: string, l: MapLine)
    requires ValidLine(l)
    ensures Stands(s, Render(l), l)
  {
    forall at: nat | Piece(s, at, Render(l)) ensures LineFacts(s, l, at) && NewlineAt(l, at) + 1 == at + |Render(l)| {
      LayoutFacts(s, l, at);
      LineLength(l, at);
    }
  }

  lemma {:induction false} LayLines(s: string, lead: nat, texts: seq<string>, ls: seq<MapLine>, e: nat)
    returns (starts: seq<nat>)
    requires AllStand(s, texts, ls) && Piece(s, lead, Joined(texts)) && e == lead + |Joined(texts)|
    ensures Laid(s, starts, ls) && starts[0] == lead && starts[|ls|] == e
    decreases |ls|
  {
    if ls == [] {
      starts := [lead];
    } else {
      var next := JoinedSplit(s, lead, texts);
      assert Stands(s, texts[0], ls[0]);
      AllButFirst(s, texts, ls);
      var rest := LayLines(s, next, texts[1..], ls[1..], e);
      LayFirst(s, lead, next, rest, ls);
      starts := [lead] + rest;
    }
  }

  lemma AllButFirst(s: string, texts: seq<string>, ls: seq<MapLine>)
    requires AllStand(s, texts, ls) && ls != []
    ensures AllStand(s, texts[1..], ls[1..])
  {
  }

  lemma LayFirst(s: string, lead: nat, next: nat, rest: seq<nat>, ls: seq<MapLine>)
    requires ls != [] && LineFacts(s, ls[0], lead) && next == NewlineAt(ls[0], lead) + 1
    requires Laid(s, rest, ls[1..]) && rest[0] == next
    ensures var starts := [lead] + rest;
            Laid(s, starts, ls) && starts[0] == lead && starts[|ls|] == rest[|ls| - 1]
  {
    var starts := [lead] + rest;
    forall j | 0 <= j < |ls| ensures LineIn(s, starts, ls, j) {
      if j > 0 {
        assert LineIn(s, rest, ls[1..], j - 1);
        assert ls[j] == ls[1..][j - 1] && starts[j] == rest[j - 1] && starts[j + 1] == rest[j];
      } else {
        assert starts[0] == lead && starts[1] == rest[0];
      }
    }
  }

  // Between the starts of two lines there is one newline, right before the second start.
  lemma LineBetween(s: string, starts: seq<nat>, ls: seq<MapLine>, j: nat)
    requires Laid(s, starts, ls) && j < |ls|
    ensures starts[j] + 1 < starts[j + 1] <= |s| && s[starts[j + 1] - 1] == '\n'
    ensures forall p :: starts[j] <= p < starts[j + 1] - 1 ==> s[p] != '\n'
  {
    assert LineIn(s, starts, ls, j);
    LineLayout(s, ls[j], starts[j]);
  }

  // The newline of line j has that line's mapping for its outcome.
  ghost predicate SweptIn(starts: seq<nat>, ls: seq<MapLine>, j: nat, outcomes: nat -> Outcome) {
    && j < |ls| && |starts| == |ls| + 1
    && starts[j + 1] > 0 && outcomes(starts[j + 1] - 1) == Swept(MappingOf(ls[j]))
  }

  ghost predicate LinesSwept(starts: seq<nat>, ls: seq<MapLine>, outcomes: nat -> Outcome) {
    forall j :: 0 <= j < |ls| ==> SweptIn(starts, ls, j, outcomes)
  }

  lemma LaidSwept(s: string, starts: seq<nat>, ls: seq<MapLine>, page: nat)
    requires page > 0 && Sweepable(ls, page) && Laid(s, starts, ls) && AtStart(s, starts[0])
    ensures LinesSwept(starts, ls, Outcomes(s, page))
  {
    forall j | 0 <= j < |ls| ensures SweptIn(starts, ls, j, Outcomes(s, page)) {
      StartsAt(s, starts, ls, j);
      NewlineSwept(s, starts, ls, j, page);
    }
  }

  lemma StartsAt(s: string, starts: seq<nat>, ls: seq<MapLine>, j: nat)
    requires Laid(s, starts, ls) && AtStart(s, starts[0]) && j < |ls|
    ensures AtStart(s, starts[j])
  {
    if j > 0 {
      LineBetween(s, starts, ls, j - 1);
    }
  }

  lemma NewlineSwept(s: string, starts: seq<nat>, ls: seq<MapLine>, j: nat, page: nat)
    requires page > 0 && Laid(s, starts, ls) && j < |ls| && AtStart(s, starts[j])
    requires NoWrap(ls[j].low, ls[j].high, page)
    ensures SweptIn(starts, ls, j, Outcomes(s, page))
  {
    assert LineIn(s, starts, ls, j);
    LineSwept(s, ls[j], starts[j], page);
  }

  /** From the start of line j on, exactly the lines from j on are found, in order; what stands
      behind them without a newline is not. */
  lemma {:induction false} ScansLines(s: string, starts: seq<nat>, ls: seq<MapLine>, j: nat, length: nat,
                                      outcomes: nat -> Outcome)
    requires Laid(s, starts, ls) && LinesSwept(starts, ls, outcomes) && j <= |ls|
    requires starts[|ls|] <= length <= |s| && forall p :: starts[|ls|] <= p < length ==> s[p] != '\n'
    ensures starts[j] <= starts[|ls|] && Scans(s, starts[j], length, outcomes) == Found(MappingsOf(ls[j..]), true)
    decreases |ls| - j
  {
    if j == |ls| {
      ScansSkip(s, starts[j], length, length, outcomes);
    } else {
      ScansLines(s, starts, ls, j + 1, length, outcomes);
      LineBetween(s, starts, ls, j);
      ScansNewline(s, starts[j], starts[j + 1] - 1, length, outcomes);
      assert SweptIn(starts, ls, j, outcomes);
      MappingsTail(ls, j);
    }
  }

  lemma MappingsTail(ls: seq<MapLine>, j: nat)
    requires j < |ls|
    ensures MappingsOf(ls[j..]) == [MappingOf(ls[j])] + MappingsOf(ls[j + 1..])
  {
    assert ls[j..][0] == ls[j] && ls[j..][1..] == ls[j + 1..];
  }

  /** Whole lines from position `lead` to e, and no newline behind them: exactly these lines are
      found, in order. */
  lemma ScansChunk(s: string, lead: nat, ls: seq<MapLine>, e: nat, length: nat, page: nat)
    requires page > 0 && Sweepable(ls, page) && AtStart(s, lead)
    requires Piece(s, lead, Chunk(ls)) && e == lead + |Chunk(ls)|
    requires e <= length <= |s| && forall p :: e <= p < length ==> s[p] != '\n'
    ensures Scans(s, lead, length, Outcomes(s, page)) == Found(MappingsOf(ls), true)
  {
    RenderedStand(s, ls);
    var starts := LayLines(s, lead, Rendered(ls), ls, e);
    ScansLaid(s, starts, ls, length, page);
  }

  lemma ScansLaid(s: string, starts: seq<nat>, ls: seq<MapLine>, length: nat, page: nat)
    requires page > 0 && Sweepable(ls, page) && Laid(s, starts, ls) && AtStart(s, starts[0])
    requires starts[|ls|] <= length <= |s| && forall p :: starts[|ls|] <= p < length ==> s[p] != '\n'
    ensures starts[0] <= length && Scans(s, starts[0], length, Outcomes(s, page)) == Found(MappingsOf(ls), true)
  {
    LaidSwept(s, starts, ls, page);
    ScansLines(s, starts, ls, 0, length, Outcomes(s, page));
    assert ls[0..] == ls;
  }

  /** A read that delivers whole lines: all of them are found, in order. */
  lemma WholeChunk(s: string, ls: seq<MapLine>, page: nat)
    requires page > 0 && Sweepable(ls, page) && Chunk(ls) <= s
    ensures Scans(s, 0, |Chunk(ls)|, Outcomes(s, page)) == Found(MappingsOf(ls), true)
  {
    ScansChunk(s, 0, ls, |Chunk(ls)|, |Chunk(ls)|, page);
  }

  /** A read that begins and ends inside lines: bytes 0 to h are the end of the line the last
      read cut, whole lines follow, and then the beginning of the line this read cuts.
      That beginning is never scanned.  If the cut fell right before a newline, exactly the whole
      lines are found.  Otherwise the first h bytes are scanned as if they were a line, and the
      whole lines are found after whatever that comes to, exactly when it stays in the buffer
      and ends. */
  lemma CutChunk(s: string, h: nat, starts: seq<nat>, ls: seq<MapLine>, length: nat, page: nat)
    requires page > 0 && Sweepable(ls, page) && Laid(s, starts, ls) && starts[0] == h + 1
    requires h < |s| && s[h] == '\n' && forall p :: 0 <= p < h ==> s[p] != '\n'
    requires starts[|ls|] <= length <= |s| && forall p :: starts[|ls|] <= p < length ==> s[p] != '\n'
    ensures h < length && var found := Scans(s, 0, length, Outcomes(s, page));
            if h == 0 then found == Found(MappingsOf(ls), true)
            else match OutcomeAt(s, h, page)
                 case Swept(m) => found == Found([m] + MappingsOf(ls), true)
                 case _ => found == Found([], false)
  {
    ScansLaid(s, starts, ls, length, page);
    ScansNewline(s, 0, h, length, Outcomes(s, page));
  }

  /** What the rest of a cut line is taken for, when there is no dash in it, as in most names: a
      mapping under the next line's name, up to the end of that line's range, from the number its
      first k characters are if they are digits, shifted by one digit. */
  lemma HeadMisread(s: string, h: nat, k: nat, l: MapLine)
    requires 0 < h < |s| && s[h] == '\n' && LineFacts(s, l, h + 1)
    requires forall p :: 0 <= p < h ==> s[p] != '\n' && s[p] != '-'
    requires k <= h && IsHex(s[0..k]) && !IsHexDigit(s[k])
    ensures ScanAt(s, h)
            == Inside(16 * HexValue(s[0..k]) % 0x1_0000_0000_0000_0000, l.high, NameAt(l, h + 1), NewlineAt(l, h + 1))
  {
    var (low, x) := HexScan(s, 0, '-', 0);
    HexScanValue(s, 0, k, '-');
    LineBeginIs(s, h, 0);
    NextDash(s, x, l, h, DashAt(l, h + 1), RangeEnd(l, h + 1));
    RestScanned(s, l, h + 1, low, x);
  }

  lemma NextDash(s: string, x: nat, l: MapLine, h: nat, dash: nat, end: nat)
    requires x <= h + 1 && RangeFacts(s, l, h + 1, dash, end) && s[h] == '\n'
    requires forall p :: 0 <= p < h ==> s[p] != '-'
    ensures Find(s, x, '-') == dash
  {
    var digits := s[h + 1..dash];
    forall p | x <= p < dash ensures s[p] != '-' {
      if p > h {
        assert IsHexDigit(digits[p - h - 1]) && digits[p - h - 1] == s[p];
      }
    }
  }

  /** A read whose scan does not get to its end is the last one; otherwise the next read finds its
      bytes at the buffer's start and this read's bytes behind them. */
  lemma ReadsInTurn(s: string, text: string, texts: seq<string>, page: nat)
    requires page > 0 && 0 < |text| <= |s| && Fit([text] + texts, |s|) && Fit(texts, |s|)
    ensures var t := text + s[|text|..];
            var here := Scans(t, 0, |text|, Outcomes(t, page));
            var all := AllScans(s, [text] + texts, page);
            if !here.complete then all == here
            else all.ms == here.ms + AllScans(t, texts, page).ms && all.complete == AllScans(t, texts, page).complete
  {
    assert ([text] + texts)[0] == text && ([text] + texts)[1..] == texts;
  }

  // ---------------------------------------------------------------- all reads, whole lines

  ghost function AllLines(chunks: seq<seq<MapLine>>): seq<MapLine> {
    if chunks == [] then [] else chunks[0] + AllLines(chunks[1..])
  }

  lemma {:induction false} MappingsAppend(ls: seq<MapLine>, ms: seq<MapLine>)
    ensures MappingsOf(ls + ms) == MappingsOf(ls) + MappingsOf(ms)
  {
    var all := ls + ms;
    forall j | 0 <= j < |all| ensures MappingsOf(all)[j] == (MappingsOf(ls) + MappingsOf(ms))[j] {
      assert all[j] == if j < |ls| then ls[j] else ms[j - |ls|];
    }
  }

  /** Reads that each deliver whole lines: all lines of all reads are found, in order, although
      older bytes stay behind in the buffer. */
  lemma {:induction false} WholeReads(s: string, texts: seq<string>, chunks: seq<seq<MapLine>>, page: nat)
    requires page > 0 && |texts| == |chunks| && Fit(texts, |s|)
    requires forall c :: 0 <= c < |texts| ==> texts[c] == Chunk(chunks[c]) && Sweepable(chunks[c], page)
    ensures AllScans(s, texts, page) == Found(MappingsOf(AllLines(chunks)), true)
    decreases |texts|
  {
    if texts != [] {
      var t := Refilled(s, texts[0]);
      WholeChunk(t, chunks[0], page);
      WholeReads(t, texts[1..], chunks[1..], page);
      MappingsAppend(chunks[0], AllLines(chunks[1..]));
    }
  }
}
