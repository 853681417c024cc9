/** Counting the calls of a walk by file type. */
module Totals {
  import opened FileTree
  import opened WalkSpec

  /** Calls made on nodes of a given type. */
  ghost function Count(log: seq<Callback>, m: Mode): nat {
    if log == [] then 0 else Count(log[..|log| - 1], m) + if log[|log| - 1].mode == m then 1 else 0
  }

  // The places in the log that hold a call of type m.
  ghost function Places(log: seq<Callback>, m: Mode): set<int> {
    set i | 0 <= i < |log| && log[i].mode == m
  }

  lemma PlacesSnoc(log: seq<Callback>, m: Mode)
    requires log != []
    ensures var n := |log| - 1;
            && n !in Places(log[..n], m)
            && Places(log, m) == if log[n].mode == m then Places(log[..n], m) + {n} else Places(log[..n], m)
  {
    var n := |log| - 1;
    forall i ensures i in Places(log, m) <==> i in Places(log[..n], m) || (i == n && log[n].mode == m) {
      if 0 <= i < n {
        assert log[..n][i] == log[i];
      }
    }
  }

  /** The count is the number of these places. */
  lemma {:induction false} CountPlaces(log: seq<Callback>, m: Mode)
    ensures Count(log, m) == |Places(log, m)|
  {
    if log != [] {
      CountPlaces(log[..|log| - 1], m);
      PlacesSnoc(log, m);
    }
  }

  /** Every call is counted under exactly one type, `Unknown` being the one without a counter. */
  lemma {:induction false} CountTotal(log: seq<Callback>)
    ensures Count(log, Regular) + Count(log, Directory) + Count(log, Block) + Count(log, Character)
            + Count(log, Fifo) + Count(log, Symlink) + Count(log, Socket) == |log| - Count(log, Unknown)
  {
    if log != [] {
      CountTotal(log[..|log| - 1]);
    }
  }

  lemma {:induction false} CountIn(log: seq<Callback>, m: Mode)
    ensures Count(log, m) == |log| <==> forall c :: c in log ==> c.mode == m
    ensures Count(log, m) <= |log|
  {
    if log != [] {
      CountIn(log[..|log| - 1], m);
      assert log == log[..|log| - 1] + [log[|log| - 1]];
    }
  }

  /** A first walk leaves a zero total, which printStat then divides by, exactly when
      lstat fails on the start directory itself. */
  lemma ZeroTotal(start: Tree, p: Path, name: string)
    requires start.Dir?
    ensures var calls := Walk(start, p, name, 0);
            |calls| - Count(calls, Unknown) == 0 <==> start.lstatFails
  {
    var calls := Walk(start, p, name, 0);
    CountIn(calls, Unknown);
    if !start.lstatFails {
      assert calls[0] in calls && calls[0].mode == Directory;
    }
  }
}
