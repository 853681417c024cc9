/** The counters of lab_02/lib/statistics.c and the percentages printed from them. */
module Statistics {
  import opened FileTree

  const INT_MAX: int := 0x7fff_ffff

  /** C's integer division: it truncates toward zero. */
  function Truncated(a: int, b: int): int
    requires b != 0
  {
    if a >= 0 then a / b else -(-a / b)
  }

  /** findPercent, where its int arithmetic is defined: a nonzero divisor and no overflow. */
  function FindPercent(part: int, all: int): (r: int)
    requires all != 0 && -INT_MAX <= part * 100 <= INT_MAX
    ensures part >= 0 ==> r == 100 * part / all
  {
    Truncated(part * 100, all)
  }

  class Stats {
    var nreg: int
    var ndir: int
    var nblk: int
    var nchr: int
    var nfifo: int
    var nslink: int
    var nsock: int
    var ntotal: int

    constructor ()
      ensures ntotal == 0 && forall m :: Get(m) == 0
    {
      nreg, ndir, nblk, nchr, nfifo, nslink, nsock, ntotal := 0, 0, 0, 0, 0, 0, 0, 0;
    }

    /** The counter of a file type; `Unknown` has none. */
    ghost function Get(m: Mode): int
      reads this
    {
      match m
      case Regular => nreg
      case Directory => ndir
      case Block => nblk
      case Character => nchr
      case Fifo => nfifo
      case Symlink => nslink
      case Socket => nsock
      case Unknown => 0
    }

    ghost function Sum(): int
      reads this
    {
      nreg + ndir + nblk + nchr + nfifo + nslink + nsock
    }

    /** incStat: directories are not its business, and an unknown type counts nowhere. */
    method IncStat(mode: Mode)
      modifies this
      ensures forall m :: Get(m) == old(Get(m)) + if m == mode && mode != Directory && mode != Unknown then 1 else 0
      ensures nreg == old(nreg) + (if mode == Regular then 1 else 0) && ndir == old(ndir)
      ensures nblk == old(nblk) + if mode == Block then 1 else 0
      ensures nchr == old(nchr) + if mode == Character then 1 else 0
      ensures nfifo == old(nfifo) + if mode == Fifo then 1 else 0
      ensures nslink == old(nslink) + if mode == Symlink then 1 else 0
      ensures nsock == old(nsock) + if mode == Socket then 1 else 0
      ensures ntotal == old(ntotal)
    {
      match mode
      case Regular => nreg := nreg + 1;
      case Block => nblk := nblk + 1;
      case Character => nchr := nchr + 1;
      case Fifo => nfifo := nfifo + 1;
      case Symlink => nslink := nslink + 1;
      case Socket => nsock := nsock + 1;
      case Directory =>
      case Unknown =>
    }

    /** printStat: the total is always stored.  The seven percentages, row by row, are printed
        when the C expressions that compute them are defined: a total that is not zero, and
        products that fit in an int.  Otherwise nothing can be said of what the call does, and
        on a zero total it does not return. */
    method PrintStat() returns (table: Table)
      requires forall m :: Get(m) >= 0
      modifies this`ntotal
      ensures ntotal == nreg + ndir + nblk + nchr + nfifo + nslink + nsock
      ensures table.Undefined? <==>
        || ntotal == 0 || 100 * nreg > 0x7fff_ffff || 100 * ndir > 0x7fff_ffff || 100 * nblk > 0x7fff_ffff
        || 100 * nchr > 0x7fff_ffff || 100 * nfifo > 0x7fff_ffff || 100 * nslink > 0x7fff_ffff
        || 100 * nsock > 0x7fff_ffff
      ensures table.Percents? ==> table.shares == [
        100 * nreg / ntotal, 100 * ndir / ntotal, 100 * nblk / ntotal, 100 * nchr / ntotal,
        100 * nfifo / ntotal, 100 * nslink / ntotal, 100 * nsock / ntotal
      ]
      ensures table.Percents? ==> 94 <= Total(table.shares) <= 100
    {
      NonNegative();
      ntotal := nreg + nchr + nblk + nfifo + nslink + nsock + ndir;
      if ntotal == 0 || Overflows(nreg) || Overflows(ndir) || Overflows(nblk) || Overflows(nchr)
         || Overflows(nfifo) || Overflows(nslink) || Overflows(nsock) {
        return Undefined;
      }
      SevenShares([nreg, ndir, nblk, nchr, nfifo, nslink, nsock], ntotal);
      return Percents([
        FindPercent(nreg, ntotal), FindPercent(ndir, ntotal), FindPercent(nblk, ntotal), FindPercent(nchr, ntotal),
        FindPercent(nfifo, ntotal), FindPercent(nslink, ntotal), FindPercent(nsock, ntotal)
      ]);
    }

    lemma NonNegative()
      requires forall m :: Get(m) >= 0
      ensures nreg >= 0 && ndir >= 0 && nblk >= 0 && nchr >= 0 && nfifo >= 0 && nslink >= 0 && nsock >= 0
    {
      assert Get(Regular) >= 0 && Get(Directory) >= 0 && Get(Block) >= 0 && Get(Character) >= 0
          && Get(Fifo) >= 0 && Get(Symlink) >= 0 && Get(Socket) >= 0;
    }
  }

  /** What printStat prints below the counters. */
  datatype Table = Undefined | Percents(shares: seq<int>)

  /** findPercent's product does not fit in an int. */
  predicate Overflows(part: int) { part * 100 > INT_MAX }

  lemma SevenShares(parts: seq<int>, all: int)
    requires |parts| == 7 && forall i :: 0 <= i < 7 ==> parts[i] >= 0
    requires all == parts[0] + parts[1] + parts[2] + parts[3] + parts[4] + parts[5] + parts[6] && all != 0
    ensures Shares(parts, all) == [
      100 * parts[0] / all, 100 * parts[1] / all, 100 * parts[2] / all, 100 * parts[3] / all,
      100 * parts[4] / all, 100 * parts[5] / all, 100 * parts[6] / all
    ]
    ensures 94 <= Total(Shares(parts, all)) <= 100
  {
    TotalOfSeven(parts);
    PercentTotal(parts, all);
  }

  /** The truncated percentages of the parts of a whole. */
  ghost function Shares(parts: seq<int>, all: int): (s: seq<int>)
    requires all != 0
    ensures |s| == |parts|
    ensures forall i :: 0 <= i < |parts| ==> s[i] == 100 * parts[i] / all
  {
    if parts == [] then [] else [100 * parts[0] / all] + Shares(parts[1..], all)
  }

  ghost function Total(s: seq<int>): int {
    if s == [] then 0 else s[0] + Total(s[1..])
  }

  lemma TotalOfSeven(s: seq<int>)
    requires |s| == 7
    ensures Total(s) == s[0] + s[1] + s[2] + s[3] + s[4] + s[5] + s[6]
  {
    assert Total(s[5..]) == s[5] + s[6] + Total(s[5..][2..]);
    assert Total(s[3..]) == s[3] + s[4] + Total(s[3..][2..]) && s[3..][2..] == s[5..];
    assert Total(s[1..]) == s[1] + s[2] + Total(s[1..][2..]) && s[1..][2..] == s[3..];
  }

  lemma Share(part: int, all: int)
    requires all > 0
    ensures 100 * part == all * (100 * part / all) + 100 * part % all && 0 <= 100 * part % all < all
  {
  }

  lemma Distribute(all: int, q: int, t: int)
    ensures all * (q + t) == all * q + all * t
  {
  }

  // What truncation loses on each share.
  ghost function Residues(parts: seq<int>, all: int): (r: seq<int>)
    requires all > 0
    ensures |r| == |parts|
    ensures forall i :: 0 <= i < |parts| ==> r[i] == 100 * parts[i] % all
  {
    if parts == [] then [] else [100 * parts[0] % all] + Residues(parts[1..], all)
  }

  lemma {:induction false} PercentLoss(parts: seq<int>, all: int)
    requires all > 0
    ensures 100 * Total(parts) == all * Total(Shares(parts, all)) + Total(Residues(parts, all))
  {
    if parts != [] {
      PercentLoss(parts[1..], all);
      Share(parts[0], all);
      var s, r := Shares(parts, all), Residues(parts, all);
      Distribute(all, s[0], Total(s[1..]));
      assert s[1..] == Shares(parts[1..], all) && r[1..] == Residues(parts[1..], all);
    }
  }

  lemma {:induction false} TotalBounds(s: seq<int>, bound: int)
    requires forall i :: 0 <= i < |s| ==> 0 <= s[i] < bound
    ensures 0 <= Total(s) && (s != [] ==> Total(s) < bound * |s|)
  {
    if s != [] {
      TotalBounds(s[1..], bound);
      Distribute(bound, 1, |s| - 1);
    }
  }

  lemma {:induction false} TotalZero(s: seq<int>)
    requires forall i :: 0 <= i < |s| ==> 0 <= s[i]
    ensures 0 <= Total(s) && (Total(s) == 0 <==> forall i :: 0 <= i < |s| ==> s[i] == 0)
  {
    if s != [] {
      var tail := s[1..];
      TotalZero(tail);
      assert forall i :: 0 < i < |s| ==> s[i] == tail[i - 1];
      assert forall i :: 0 <= i < |tail| ==> tail[i] == s[i + 1];
    }
  }

  lemma LostPoints(all: int, kept: int, loss: int)
    requires all > 0 && 100 * all == all * kept + loss && 0 <= loss < 7 * all
    ensures 94 <= kept <= 100 && (kept == 100 <==> loss == 0)
  {
    Distribute(all, 100 - kept, kept);
  }

  /** Seven truncated percentages of a whole sum to between 94 and 100, and to 100 exactly
      when nothing was truncated. */
  lemma PercentTotal(parts: seq<int>, all: int)
    requires |parts| == 7 && all > 0 && Total(parts) == all
    ensures 94 <= Total(Shares(parts, all)) <= 100
    ensures Total(Shares(parts, all)) == 100 <==> forall i :: 0 <= i < 7 ==> 100 * parts[i] % all == 0
  {
    var r := Residues(parts, all);
    PercentLoss(parts, all);
    TotalBounds(r, all);
    TotalZero(r);
    LostPoints(all, Total(Shares(parts, all)), Total(r));
    assert forall i :: 0 <= i < 7 ==> r[i] == 100 * parts[i] % all;
  }
}
