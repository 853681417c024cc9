/** The loop over the pages of one mapping (lab_04/part1/lib/output_funcs.c, lines 149-165)
    and what sweeping all mappings queries. */
module PageSweep {
  import opened Arithmetic
  import opened Pagemap

  /** One mapping of the address space, as the scanner recovers it. */
  datatype Mapping = Mapping(low: nat, high: nat, name: string)

  function CeilDiv(a: nat, b: nat): nat
    requires b > 0
  {
    (a + b - 1) / b
  }

  /** The addresses queried for [low, high). */
  function Pages(low: nat, high: nat, page: nat): (s: seq<nat>)
    requires page > 0
    ensures forall k :: 0 <= k < |s| ==> s[k] == low + k * page
  {
    if low >= high then [] else seq(CeilDiv(high - low, page), (k: nat) => low + k * page)
  }

  /** The first page address at or past `high` is still a 64-bit address. */
  predicate NoWrap(low: nat, high: nat, page: nat)
    requires page > 0
  {
    low >= high || low + CeilDiv(high - low, page) * page < TWO64
  }

  /** The addresses are those the loop reaches below `high`, one for each number of steps. */
  lemma PagesAre(low: nat, high: nat, page: nat)
    requires page > 0
    ensures forall k: nat :: k < |Pages(low, high, page)| <==> low + k * page < high
  {
    if low < high {
      CeilBounds(high - low, page);
      forall k: nat ensures low + k * page < high <==> k * page < high - low {
      }
    } else {
      forall k: nat ensures low + k * page >= high {
      }
    }
  }

  // The loop variable after n steps of 64-bit arithmetic.
  function AfterSteps(low: nat, n: nat, page: nat): nat { (low + n * page) % TWO64 }

  lemma CeilBounds(a: nat, b: nat)
    requires b > 0
    ensures a <= CeilDiv(a, b) * b < a + b
    ensures forall k: nat :: k * b < a <==> k < CeilDiv(a, b)
  {
    var q, r := CeilDiv(a, b), (a + b - 1) % b;
    assert a + b - 1 == b * q + r;
    assert b * q == q * b;
    forall k: nat ensures k * b < a <==> k < q {
      MultipleBelow(a, b, q, r, k);
    }
  }

  lemma MultipleBelow(a: nat, b: nat, q: nat, r: nat, k: nat)
    requires a + b - 1 == q * b + r && r < b
    ensures k * b < a <==> k < q
  {
    if k < q {
      ProductOrder(k + 1, q, b);
      assert (k + 1) * b == k * b + b;
    } else {
      ProductOrder(q, k, b);
    }
  }

  /** The loop ends, and without wrapping, exactly on ranges that satisfy NoWrap: on any
      other range the loop condition holds after every number of steps. */
  lemma WrapMeansForever(low: nat, high: nat, page: nat)
    requires PageSize(page) && low < TWO64 && high < TWO64
    ensures NoWrap(low, high, page) <==> exists n: nat :: AfterSteps(low, n, page) >= high
  {
    if low >= high {
      assert AfterSteps(low, 0, page) >= high;
    } else if NoWrap(low, high, page) {
      CeilBounds(high - low, page);
      assert AfterSteps(low, CeilDiv(high - low, page), page) >= high;
    } else {
      forall n: nat ensures AfterSteps(low, n, page) < high {
        StaysBelow(low, high, page, n);
      }
    }
  }

  lemma StaysBelow(low: nat, high: nat, page: nat, n: nat)
    requires PageSize(page) && low < high < TWO64 && !NoWrap(low, high, page)
    ensures AfterSteps(low, n, page) < high
  {
    var frames := TWO64 / page;
    var total := low + n * page;
    var wraps, addr := total / TWO64, total % TWO64;
    assert total == wraps * TWO64 + addr && TWO64 == frames * page;
    var k := n - wraps * frames;
    assert addr == low + k * page by {
      assert wraps * (frames * page) == (wraps * frames) * page;
      assert (n - wraps * frames) * page == n * page - (wraps * frames) * page;
    }
    if addr >= high {
      CeilBounds(high - low, page);
      var q := CeilDiv(high - low, page);
      assert k * page >= high - low;
      MultipleOrder(k, q, page, high - low);
      assert false;
    }
  }

  // A multiple that reaches `a` is at least the first one that does.
  lemma MultipleOrder(k: int, q: nat, page: nat, a: nat)
    requires page > 0 && a > 0 && k * page >= a && forall j: nat :: j * page < a <==> j < q
    ensures k >= 0 && k * page >= q * page
  {
    assert !(k * page < a);
    assert k >= q;
    assert (k - q) * page >= 0;
    assert (k - q) * page == k * page - q * page;
  }

  /** Page-aligned ranges always qualify. */
  lemma AlignedNoWrap(low: nat, high: nat, page: nat)
    requires PageSize(page) && high < TWO64 && low % page == 0 && high % page == 0
    ensures NoWrap(low, high, page)
    ensures low <= high ==> CeilDiv(high - low, page) == (high - low) / page == high / page - low / page
  {
    var a, b := low / page, high / page;
    assert low == page * a + low % page && high == page * b + high % page;
    assert page * a == a * page && page * b == b * page;
    if low <= high {
      AlignedCeil(a, b, page);
      assert low + CeilDiv(high - low, page) * page == high;
    }
  }

  lemma AlignedCeil(a: nat, b: nat, page: nat)
    requires page > 0 && a * page <= b * page
    ensures a <= b && CeilDiv(b * page - a * page, page) == (b * page - a * page) / page == b - a
    ensures CeilDiv(b * page - a * page, page) * page == b * page - a * page
  {
    MultipleDifference(a, b, page, b * page - a * page);
  }

  lemma MultipleDifference(a: nat, b: nat, page: nat, d: nat)
    requires page > 0 && d == b * page - a * page
    ensures a <= b && CeilDiv(d, page) == d / page == b - a && CeilDiv(d, page) * page == d
  {
    assert (b - a) * page == d;
    NonNegativeFactor(b - a, page);
    CeilOfMultiple(b - a, page);
  }

  lemma CeilOfMultiple(k: nat, page: nat)
    requires page > 0
    ensures CeilDiv(k * page, page) == k * page / page == k
  {
    DivideSum(k, page, 0);
    DivideSum(k, page, page - 1);
  }

  /** One query of the pagemap: the address, the name printed with it and the answer, which
      is absent when pagemap_get_entry failed and nothing was printed. */
  datatype Query = Query(addr: nat, name: string, answer: Option<PagemapEntry>)

  /** The query is for `addr` and `name`, and the answer is the file's entry for that page. */
  ghost predicate Answers(q: Query, addr: nat, name: string, file: PagemapFile, page: nat)
    requires page > 0
  {
    q.addr == addr && q.name == name && q.answer == EntryAt(file, addr, page)
  }

  ghost predicate Swept(qs: seq<Query>, low: nat, high: nat, name: string, file: PagemapFile, page: nat)
    requires page > 0
  {
    && |qs| == |Pages(low, high, page)|
    && forall k :: 0 <= k < |qs| ==> Answers(qs[k], Pages(low, high, page)[k], name, file, page)
  }

  method SweepRange(low: nat, high: nat, name: string, file: PagemapFile, page: nat) returns (log: seq<Query>)
    requires PageSize(page) && low < TWO64 && high < TWO64 && NoWrap(low, high, page)
    ensures Swept(log, low, high, name, file, page)
  {
    log := [];
    var addr := low;
    CeilBounds(if low < high then high - low else 0, page);
    while addr < high
      invariant addr == low + |log| * page < TWO64
      invariant |log| <= |Pages(low, high, page)|
      invariant forall k :: 0 <= k < |log| ==> Answers(log[k], Pages(low, high, page)[k], name, file, page)
      invariant addr >= high ==> |log| == |Pages(low, high, page)|
      decreases high - addr
    {
      var rc, entry := PagemapGetEntry(file, addr, page);
      ghost var n := |log|;
      assert n * page < high - low;
      log := log + [Query(addr, name, if rc == 0 then Some(entry) else None)];
      NextPage(low, high, page, n);
      addr := (addr + page) % TWO64;
    }
  }

  lemma NextPage(low: nat, high: nat, page: nat, n: nat)
    requires page > 0 && low + n * page < high && NoWrap(low, high, page)
    ensures n < CeilDiv(high - low, page)
    ensures low + (n + 1) * page == low + n * page + page < TWO64
    ensures low + (n + 1) * page >= high ==> n + 1 == CeilDiv(high - low, page)
  {
    var q := CeilDiv(high - low, page);
    CeilBounds(high - low, page);
    assert n * page < high - low;
    assert (n + 1) * page == n * page + page;
    assert (q - n - 1) * page >= 0;
    assert (q - n - 1) * page == q * page - n * page - page;
    if low + (n + 1) * page >= high {
      assert !((n + 1) * page < high - low);
    }
  }

  // ---------------------------------------------------------------- all mappings together

  /** The addresses queried for a list of mappings. */
  ghost function AllPages(ls: seq<Mapping>, page: nat): seq<nat>
    requires page > 0
  {
    if ls == [] then [] else AllPages(ls[..|ls| - 1], page) + Pages(ls[|ls| - 1].low, ls[|ls| - 1].high, page)
  }

  ghost function PageCount(ls: seq<Mapping>, page: nat): int
    requires page > 0
  {
    if ls == [] then 0 else PageCount(ls[..|ls| - 1], page) + (ls[|ls| - 1].high - ls[|ls| - 1].low) / page
  }

  /** The mappings of a real address space: page-aligned, ascending, not overlapping. */
  ghost predicate AddressSpace(ls: seq<Mapping>, page: nat)
    requires page > 0
  {
    && (forall i :: 0 <= i < |ls| ==>
          ls[i].low <= ls[i].high < TWO64 && ls[i].low % page == 0 && ls[i].high % page == 0)
    && (forall i, j :: 0 <= i < j < |ls| ==> ls[i].high <= ls[j].low)
  }

  ghost predicate Ascending(s: seq<nat>) {
    forall i, j :: 0 <= i < j < |s| ==> s[i] < s[j]
  }

  ghost predicate Mapped(ls: seq<Mapping>, p: nat) {
    exists i :: 0 <= i < |ls| && ls[i].low <= p < ls[i].high
  }

  lemma MultipleMonotone(i: nat, j: nat, page: nat)
    requires page > 0 && i < j
    ensures i * page < j * page
  {
    assert (j - i) * page == j * page - i * page;
  }

  // A page-aligned address, as a multiple.
  lemma AlignedMultiple(p: nat, page: nat)
    requires page > 0
    ensures p % page == 0 <==> p == (p / page) * page
  {
    assert p == page * (p / page) + p % page;
    assert page * (p / page) == (p / page) * page;
  }

  lemma AlignedStep(low: nat, k: nat, page: nat)
    requires page > 0 && low % page == 0
    ensures (low + k * page) % page == 0
  {
    AlignedMultiple(low, page);
    var a := low / page;
    assert (a + k) * page == a * page + k * page;
    DivideSum(a + k, page, 0);
  }

  lemma AlignedDistance(low: nat, p: nat, page: nat) returns (k: nat)
    requires page > 0 && low <= p && low % page == 0 && p % page == 0
    ensures p == low + k * page
  {
    AlignedMultiple(low, page);
    AlignedMultiple(p, page);
    var d := p / page - low / page;
    assert d * page == (p / page) * page - (low / page) * page;
    NonNegativeFactor(d, page);
    k := d;
  }

  lemma PageMember(low: nat, high: nat, page: nat, p: nat)
    requires PageSize(page) && low < high && low % page == 0
    ensures p in Pages(low, high, page) <==> low <= p < high && p % page == 0
  {
    var s := Pages(low, high, page);
    CeilBounds(high - low, page);
    if p in s {
      var k: nat :| k < |s| && s[k] == p;
      AlignedStep(low, k, page);
    }
    if low <= p < high && p % page == 0 {
      var k := AlignedDistance(low, p, page);
      assert s[k] == p;
    }
  }

  /** The pages of one aligned range: ascending, and exactly the aligned addresses in it. */
  lemma RangePages(low: nat, high: nat, page: nat)
    requires PageSize(page) && low <= high < TWO64 && low % page == 0 && high % page == 0
    ensures Ascending(Pages(low, high, page)) && |Pages(low, high, page)| == (high - low) / page
    ensures forall p: nat :: p in Pages(low, high, page) <==> low <= p < high && p % page == 0
  {
    var s := Pages(low, high, page);
    AlignedNoWrap(low, high, page);
    forall i, j | 0 <= i < j < |s| ensures s[i] < s[j] {
      MultipleMonotone(i, j, page);
    }
    forall p: nat ensures p in s <==> low <= p < high && p % page == 0 {
      if low < high {
        PageMember(low, high, page, p);
      }
    }
  }

  /** Sweeping an address space queries every page of it exactly once, in ascending order,
      and nothing else: in all, the sum of (high - low) / page queries. */
  lemma {:induction false} SweepsEveryPageOnce(ls: seq<Mapping>, page: nat)
    requires PageSize(page) && AddressSpace(ls, page)
    ensures Ascending(AllPages(ls, page)) && |AllPages(ls, page)| == PageCount(ls, page)
    ensures forall p: nat :: p in AllPages(ls, page) <==> Mapped(ls, p) && p % page == 0
  {
    if ls != [] {
      var init, l := ls[..|ls| - 1], ls[|ls| - 1];
      var before, here := AllPages(init, page), Pages(l.low, l.high, page);
      SweepsEveryPageOnce(init, page);
      RangePages(l.low, l.high, page);
      forall p: nat ensures Mapped(ls, p) <==> Mapped(init, p) || l.low <= p < l.high {
        MappedSnoc(ls, p);
      }
      forall i, j | 0 <= i < |before| && 0 <= j < |here| ensures before[i] < here[j] {
        assert before[i] in before && here[j] in here;
      }
    }
  }

  lemma MappedSnoc(ls: seq<Mapping>, p: nat)
    requires ls != []
    ensures Mapped(ls, p) <==> Mapped(ls[..|ls| - 1], p) || ls[|ls| - 1].low <= p < ls[|ls| - 1].high
  {
    if Mapped(ls, p) {
      var i :| 0 <= i < |ls| && ls[i].low <= p < ls[i].high;
      assert i < |ls| - 1 ==> ls[..|ls| - 1][i] == ls[i];
    }
    if Mapped(ls[..|ls| - 1], p) {
      var i :| 0 <= i < |ls| - 1 && ls[..|ls| - 1][i].low <= p < ls[..|ls| - 1][i].high;
      assert ls[i].low <= p < ls[i].high;
    }
  }
}
