/** fprintPagemap of lab_04/part1/lib/output_funcs.c: the in-place scanner of the maps buffer,
    with the page sweep of every mapping it finds.  Every method is proved, for any bytes at
    all, against what MapsScan says is found in them. */
module MapsScanner {
  import opened Pagemap
  import opened Pieces
  import opened MapsFormat
  import opened PageSweep
  import opened MapsScan

  // The backward scan: from the newline at `i` to the first character of its line.
  method LineStart(buffer: array<char>, i: nat) returns (x: nat)
    requires 0 < i < buffer.Length
    ensures x == LineBegin(buffer[..], i)
  {
    ghost var s := buffer[..];
    x := i - 1;
    while x != 0 && buffer[x] != '\n'
      invariant x < i && Back(s, x) == Back(s, i - 1)
      decreases x
    {
      x := x - 1;
    }
    if buffer[x] == '\n' {
      x := x + 1;
    }
  }

  // One hexadecimal number, up to `stop`; the accumulator is a 64-bit word.
  method ScanHex(buffer: array<char>, from: nat, stop: char) returns (v: nat, x: nat)
    requires from <= buffer.Length
    ensures (v, x) == HexScan(buffer[..], from, stop, 0)
  {
    ghost var s := buffer[..];
    v, x := 0, from;
    while x < buffer.Length && buffer[x] != stop
      invariant from <= x <= buffer.Length
      invariant HexScan(s, x, stop, v) == HexScan(s, from, stop, 0)
      decreases buffer.Length - x
    {
      var c := buffer[x];
      x := x + 1;
      v := Word64(v * 16);
      if '0' <= c <= '9' {
        v := Word64(v + (c as int - '0' as int));
      } else if 'a' <= c <= 'f' {
        v := Word64(v + (c as int - 'a' as int + 10));
      } else {
        return;
      }
    }
  }

  // Skips everything but `stop`.
  method SkipTo(buffer: array<char>, from: nat, stop: char) returns (x: nat)
    requires from <= buffer.Length
    ensures x == Find(buffer[..], from, stop)
  {
    ghost var s := buffer[..];
    x := from;
    while x < buffer.Length && buffer[x] != stop
      invariant from <= x <= buffer.Length && Find(s, x, stop) == Find(s, from, stop)
      decreases buffer.Length - x
    {
      x := x + 1;
    }
  }

  method SkipBlanks(buffer: array<char>, from: nat) returns (x: nat)
    requires from <= buffer.Length
    ensures x == PastBlanks(buffer[..], from)
  {
    ghost var s := buffer[..];
    x := from;
    while x < buffer.Length && buffer[x] == ' '
      invariant from <= x <= buffer.Length && PastBlanks(s, x) == PastBlanks(s, from)
      decreases buffer.Length - x
    {
      x := x + 1;
    }
  }

  // Fields are skipped; `x` goes from the blank before them to the one after.
  method SkipFields(buffer: array<char>, from: nat, count: nat) returns (x: nat)
    requires from <= buffer.Length
    ensures x == Fields(buffer[..], from, count)
  {
    ghost var s := buffer[..];
    x := from;
    var field := 0;
    while field < count && x < buffer.Length
      invariant 0 <= field <= count && x <= buffer.Length
      invariant Fields(s, x, count - field) == Fields(s, from, count)
      decreases count - field
    {
      x := x + 1;
      x := SkipTo(buffer, x, ' ');
      field := field + 1;
    }
  }

  /** The whole scan triggered by the newline at `i`. */
  method ScanLine(buffer: array<char>, i: nat) returns (r: Scan)
    requires 0 < i < buffer.Length
    ensures r == ScanAt(buffer[..], i)
  {
    var x := LineStart(buffer, i);
    var low, high;
    low, x := ScanHex(buffer, x, '-');
    x := SkipTo(buffer, x, '-');
    if x == buffer.Length {
      return Outside;
    }
    x := x + 1;
    high, x := ScanHex(buffer, x, ' ');
    x := SkipFields(buffer, x, 4);
    r := ScanName(buffer, low, high, x);
  }

  // The blanks before the name, and the name up to the newline.
  method ScanName(buffer: array<char>, low: nat, high: nat, last: nat) returns (r: Scan)
    requires low < TWO64 && high < TWO64 && last <= buffer.Length
    ensures r == NameScan(buffer[..], low, high, last)
  {
    var x := SkipBlanks(buffer, last);
    var y := SkipTo(buffer, x, '\n');
    r := if y == buffer.Length then Outside else Inside(low, high, x, y);
  }

  // ---------------------------------------------------------------- the queries

  /** What has to be asked, in order: the pages of every mapping, under its name. */
  ghost function Expected(ms: seq<Mapping>, page: nat): seq<(nat, string)>
    requires page > 0
  {
    if ms == [] then [] else Expected(ms[..|ms| - 1], page) + PagesOf(ms[|ms| - 1], page)
  }

  ghost function PagesOf(m: Mapping, page: nat): seq<(nat, string)>
    requires page > 0
  {
    Named(Pages(m.low, m.high, page), m.name)
  }

  ghost function Named(addrs: seq<nat>, name: string): (s: seq<(nat, string)>)
    ensures |s| == |addrs|
  {
    seq(|addrs|, k requires 0 <= k < |addrs| => (addrs[k], name))
  }

  ghost predicate AnswersAll(log: seq<Query>, keys: seq<(nat, string)>, file: PagemapFile, page: nat)
    requires page > 0
  {
    |log| == |keys| && forall k :: 0 <= k < |log| ==> Answers(log[k], keys[k].0, keys[k].1, file, page)
  }

  ghost predicate SweptAll(log: seq<Query>, ms: seq<Mapping>, file: PagemapFile, page: nat)
    requires page > 0
  {
    AnswersAll(log, Expected(ms, page), file, page)
  }

  lemma ExpectedSnoc(ms: seq<Mapping>, m: Mapping, page: nat)
    requires page > 0
    ensures Expected(ms + [m], page) == Expected(ms, page) + PagesOf(m, page)
  {
    assert (ms + [m])[..|ms|] == ms;
  }

  lemma AnswersConcat(log: seq<Query>, more: seq<Query>, keys: seq<(nat, string)>, others: seq<(nat, string)>,
                      file: PagemapFile, page: nat)
    requires page > 0 && AnswersAll(log, keys, file, page) && AnswersAll(more, others, file, page)
    ensures AnswersAll(log + more, keys + others, file, page)
  {
    var all, ks := log + more, keys + others;
    forall k | 0 <= k < |all| ensures Answers(all[k], ks[k].0, ks[k].1, file, page) {
      if k < |log| {
        assert all[k] == log[k] && ks[k] == keys[k];
      } else {
        assert all[k] == more[k - |log|] && ks[k] == others[k - |log|];
      }
    }
  }

  lemma SweptSnoc(log: seq<Query>, more: seq<Query>, ms: seq<Mapping>, m: Mapping, file: PagemapFile, page: nat)
    requires page > 0 && SweptAll(log, ms, file, page) && PageSweep.Swept(more, m.low, m.high, m.name, file, page)
    ensures SweptAll(log + more, ms + [m], file, page)
  {
    ExpectedSnoc(ms, m, page);
    AnswersConcat(log, more, Expected(ms, page), PagesOf(m, page), file, page);
  }

  /** The addresses of such a log are the pages of the mappings, one query each. */
  lemma {:induction false} ExpectedAddresses(ms: seq<Mapping>, page: nat)
    requires page > 0
    ensures |Expected(ms, page)| == |AllPages(ms, page)|
    ensures forall k :: 0 <= k < |AllPages(ms, page)| ==> Expected(ms, page)[k].0 == AllPages(ms, page)[k]
  {
    if ms != [] {
      ExpectedAddresses(ms[..|ms| - 1], page);
    }
  }

  // ---------------------------------------------------------------- the buffer

  /** The work done at a newline: scan, terminate the name, sweep, restore.  When the scan leaves
      the buffer, or the sweep would never end, nothing more is done. */
  method HandleNewline(buffer: array<char>, i: nat, file: PagemapFile, page: nat) returns (o: Outcome, more: seq<Query>)
    requires PageSize(page) && 0 < i < buffer.Length
    modifies buffer
    ensures buffer[..] == old(buffer[..]) && o == OutcomeAt(buffer[..], i, page)
    ensures o.Swept? ==> PageSweep.Swept(more, o.m.low, o.m.high, o.m.name, file, page)
  {
    var r := ScanLine(buffer, i);
    more := [];
    if r == Outside {
      return Overrun, more;
    }
    var low, high, y := r.low, r.high, r.y;
    var name := TerminateName(buffer, r.x, y);
    if !NoWrap(low, high, page) {
      buffer[y] := '\n';
      return Forever, more;
    }
    more := SweepRange(low, high, name, file, page);
    buffer[y] := '\n';
    o := MapsScan.Swept(Mapping(low, high, name));
  }

  // The newline gives way to a NUL, and the name is then read as a C string.
  method TerminateName(buffer: array<char>, x: nat, y: nat) returns (name: string)
    requires x <= y < buffer.Length
    modifies buffer
    ensures buffer[..] == old(buffer[..])[y := '\0'] && name == CString(buffer[..], x)
  {
    ghost var s := buffer[..];
    buffer[y] := '\0';
    assert buffer[..] == s[y := '\0'];
    name := CString(buffer[..], x);
  }

  /** One filled buffer, whatever it holds: the mappings found in it are swept, in order, and
      the buffer ends as it began. */
  method ScanChunk(buffer: array<char>, length: nat, file: PagemapFile, page: nat)
    returns (log: seq<Query>, complete: bool, ghost found: seq<Mapping>)
    requires PageSize(page) && length <= buffer.Length
    modifies buffer
    ensures buffer[..] == old(buffer[..])
    ensures Found(found, complete) == Scans(buffer[..], 0, length, Outcomes(buffer[..], page))
    ensures SweptAll(log, found, file, page)
  {
    log, found := [], [];
    ghost var s := buffer[..];
    ghost var outcomes := Outcomes(s, page);
    for i := 0 to length
      invariant buffer[..] == s && SweptAll(log, found, file, page)
      invariant Scans(s, 0, length, outcomes) == After(found, Scans(s, i, length, outcomes))
    {
      assert buffer[i] == s[i];
      if buffer[i] == '\n' && i != 0 {
        var o, more := HandleNewline(buffer, i, file, page);
        ScansOn(s, i, length, outcomes, found, o);
        if !o.Swept? {
          return log, false, found;
        }
        SweptSnoc(log, more, found, o.m, file, page);
        log, found := log + more, found + [o.m];
      }
    }
    return log, true, found;
  }

  // What is found after `ms` have been.
  ghost function After(ms: seq<Mapping>, rest: Found): Found {
    if rest.ms == [] then Found(ms, rest.complete)
    else if ms == [] then rest
    else Found(ms + rest.ms, rest.complete)
  }

  lemma ScansOn(s: string, i: nat, length: nat, outcomes: nat -> Outcome, ms: seq<Mapping>, o: Outcome)
    requires 0 < i < length <= |s| && s[i] == '\n' && o == outcomes(i)
    ensures var rest := Scans(s, i + 1, length, outcomes);
            After(ms, Scans(s, i, length, outcomes)) == if o.Swept? then After(ms + [o.m], rest) else Found(ms, false)
  {
    var rest := Scans(s, i + 1, length, outcomes);
    if o.Swept? && rest.ms != [] && ms != [] {
      Assoc(ms, [o.m], rest.ms);
    }
  }

  /** The outer loop.  `offset` is 0 throughout, so each read refills the buffer from its start
      and older bytes stay behind; what the reads deliver may be anything. */
  method FprintPagemap(buffer: array<char>, texts: seq<string>, file: PagemapFile, page: nat)
    returns (log: seq<Query>, complete: bool, ghost found: seq<Mapping>)
    requires PageSize(page) && buffer.Length == 2048 && Fit(texts, 2048)
    modifies buffer
    ensures Found(found, complete) == AllScans(old(buffer[..]), texts, page)
    ensures SweptAll(log, found, file, page)
    decreases |texts|
  {
    log, complete, found := [], true, [];
    var c := 0;
    assert texts[0..] == texts;
    while c < |texts| && complete
      invariant 0 <= c <= |texts| && SweptAll(log, found, file, page)
      invariant AllScans(old(buffer[..]), texts, page)
                == if complete then After(found, AllScans(buffer[..], texts[c..], page)) else Found(found, false)
      decreases |texts| - c
    {
      ghost var before := buffer[..];
      Refill(buffer, texts[c]);
      var more;
      ghost var here;
      more, complete, here := ScanChunk(buffer, |texts[c]|, file, page);
      SweptAppend(log, more, found, here, file, page);
      AllScansOn(before, texts, c, found, page);
      log, found, c := log + more, found + here, c + 1;
    }
  }

  // read: the delivered text overwrites the start of the buffer.
  method Refill(buffer: array<char>, text: string)
    requires |text| <= buffer.Length
    modifies buffer
    ensures buffer[..] == Refilled(old(buffer[..]), text)
  {
    forall k | 0 <= k < |text| {
      buffer[k] := text[k];
    }
  }

  lemma {:induction false} ExpectedAppend(ms: seq<Mapping>, more: seq<Mapping>, page: nat)
    requires page > 0
    ensures Expected(ms + more, page) == Expected(ms, page) + Expected(more, page)
  {
    if more == [] {
      assert ms + more == ms;
    } else {
      var init, m := more[..|more| - 1], more[|more| - 1];
      ExpectedAppend(ms, init, page);
      SplitLast(more);
      Assoc(ms, init, [m]);
      ExpectedSnoc(ms + init, m, page);
      ExpectedSnoc(init, m, page);
      Assoc(Expected(ms, page), Expected(init, page), PagesOf(m, page));
    }
  }

  lemma SweptAppend(log: seq<Query>, more: seq<Query>, ms: seq<Mapping>, others: seq<Mapping>,
                    file: PagemapFile, page: nat)
    requires page > 0 && SweptAll(log, ms, file, page) && SweptAll(more, others, file, page)
    ensures SweptAll(log + more, ms + others, file, page)
  {
    ExpectedAppend(ms, others, page);
    AnswersConcat(log, more, Expected(ms, page), Expected(others, page), file, page);
  }

  lemma AllScansOn(s: string, texts: seq<string>, c: nat, ms: seq<Mapping>, page: nat)
    requires c < |texts| && Fit(texts, |s|) && page > 0
    ensures var t := Refilled(s, texts[c]);
            var here := Scans(t, 0, |texts[c]|, Outcomes(t, page));
            After(ms, AllScans(s, texts[c..], page))
            == if here.complete then After(ms + here.ms, AllScans(t, texts[c + 1..], page))
               else Found(ms + here.ms, false)
  {
    assert texts[c..][0] == texts[c] && texts[c..][1..] == texts[c + 1..];
  }

  // ---------------------------------------------------------------- what the program is for

  /** Reads of whole lines: the queries of any run are those of all lines, in order. */
  lemma WholeReadsSwept(s: string, texts: seq<string>, chunks: seq<seq<MapLine>>, found: seq<Mapping>,
                        complete: bool, page: nat)
    requires page > 0 && |texts| == |chunks| && Fit(texts, |s|)
    requires forall c :: 0 <= c < |texts| ==> texts[c] == Chunk(chunks[c]) && Sweepable(chunks[c], page)
    requires Found(found, complete) == AllScans(s, texts, page)
    ensures complete && found == MappingsOf(AllLines(chunks))
  {
    WholeReads(s, texts, chunks, page);
  }

  /** Every query is for a page of one of the mappings, under that mapping's name, and has the
      file's own entry for an answer. */
  lemma {:induction false} QueriesNamed(log: seq<Query>, ms: seq<Mapping>, file: PagemapFile, page: nat, k: nat)
    requires page > 0 && SweptAll(log, ms, file, page) && k < |log|
    ensures log[k].answer == EntryAt(file, log[k].addr, page)
    ensures exists j :: 0 <= j < |ms| && log[k].name == ms[j].name && log[k].addr in Pages(ms[j].low, ms[j].high, page)
    decreases |ms|
  {
    var init, m := ms[..|ms| - 1], ms[|ms| - 1];
    var before := Expected(init, page);
    if k < |before| {
      QueriesNamed(log[..|before|], init, file, page, k);
    } else {
      assert Expected(ms, page)[k] == PagesOf(m, page)[k - |before|];
      assert log[k].addr == Pages(m.low, m.high, page)[k - |before|];
    }
  }

  /** For a whole address space: the queries are its pages, each once and ascending. */
  lemma AddressSpaceSwept(log: seq<Query>, ms: seq<Mapping>, file: PagemapFile, page: nat)
    requires PageSize(page) && AddressSpace(ms, page) && SweptAll(log, ms, file, page)
    ensures |log| == PageCount(ms, page)
    ensures forall i, j :: 0 <= i < j < |log| ==> log[i].addr < log[j].addr
    ensures forall p: nat :: Asked(log, p) <==> Mapped(ms, p) && p % page == 0
  {
    ExpectedAddresses(ms, page);
    SweepsEveryPageOnce(ms, page);
    var ps := AllPages(ms, page);
    forall p: nat ensures Asked(log, p) <==> p in ps {
      if p in ps {
        var k :| 0 <= k < |ps| && ps[k] == p;
        assert log[k].addr == p;
      }
    }
  }

  ghost predicate Asked(log: seq<Query>, p: nat) {
    exists k :: 0 <= k < |log| && log[k].addr == p
  }
}
