/** The stack-driven directory walk of lab_02/main.c: `doPath` and `ftw`. */
module Walker {
  import opened NodeStack
  import opened FileTree
  import opened Statistics
  import opened WalkSpec
  import opened Pieces
  import opened Totals

  /** The call made on a visited node. */
  ghost function CallOn(t: Tree, cwd: Path, name: string, depth: nat): Callback {
    Callback(name, if t.Dir? then FTW_DIR else FTW_FILE, depth, cwd, t.ModeOf())
  }

  /** The calls made once a node has been visited: none for it when lstat fails. */
  ghost function Called(log: seq<Callback>, t: Tree, cwd: Path, name: string, depth: nat): seq<Callback> {
    if t.lstatFails then log else log + [CallOn(t, cwd, name, depth)]
  }

  /** None of the calls made on a visited node fails. */
  predicate Succeeds(t: Tree) {
    !t.lstatFails && (t.File? || (t.Opens() && !t.closeFails))
  }

  /** The stack once a node has been visited: a marker and the listing on top, if it opens. */
  ghost function Pushed(contents: seq<Entry>, t: Tree, depth: nat): seq<Entry> {
    if t.Opens() then contents + ([Entry("..", -1)] + EntriesOf(Visits(t.listing, depth + 1))) else contents
  }

  lemma EntriesSnoc(listing: seq<DirEntry>, i: nat, depth: nat)
    requires i < |listing| && WellFormedEntry(listing[i])
    ensures var name := EntryName(listing[i]);
            && |name| < MAX_NAME
            && EntriesOf(Visits(listing[..i + 1], depth))
               == EntriesOf(Visits(listing[..i], depth))
                  + if name != "." && name != ".." then [Entry(name, depth)] else []
  {
    var e, vs := listing[i], Visits(listing[..i], depth);
    assert listing[..i + 1][..i] == listing[..i];
    assert e.Child? <==> EntryName(e) != "." && EntryName(e) != "..";
    if e.Child? {
      assert Visits(listing[..i + 1], depth) == vs + [Visit(e.node.name, e.node, depth)];
      assert EntriesOf(vs + [Visit(e.node.name, e.node, depth)]) == EntriesOf(vs) + [Entry(e.node.name, depth)];
    }
  }

  lemma PendingEntries(bottom: Entry, init: seq<Task>, t: Task)
    ensures var entries := [bottom] + EntriesOf(init);
            [bottom] + EntriesOf(NextTasks(init, t)) == if t.Leave? then entries else Pushed(entries, t.node, t.depth)
  {
    if t.Visit? && t.node.Opens() {
      var visits := Visits(t.node.listing, t.depth + 1);
      assert EntriesOf(init + [Leave] + visits) == EntriesOf(init) + ([Entry("..", -1)] + EntriesOf(visits));
      Assoc([bottom], EntriesOf(init), [Entry("..", -1)] + EntriesOf(visits));
    }
  }

  /** How ftw ends: with -1, or with 0 once the statistics are printed.  When their expressions
      are undefined, printStat is where the run of the program ends. */
  datatype Result = Failed | Printed(table: Table)

  class Process {
    const root: Tree
    const stk: Stack
    const stats: Stats
    var cwd: Path
    var log: seq<Callback>  // the calls of the visitor

    /** The counters are always exactly the calls made, type by type. */
    ghost predicate Valid()
      reads this, stk, stk.spine, stats
    {
      && WellFormed(root)
      && stk.Valid()
      && CountersMatch(log)
    }

    /** The state at a loop head: `elem` has been popped, the tasks below it are stacked on
        the copy of the start entry, and when no task is left the stack is empty. */
    ghost predicate AtHead(elem: Node, bottom: Entry, tasks: seq<Task>)
      reads this, stk, stk.spine, stats, elem
    {
      && Valid() && elem !in stk.Cells()
      && if tasks == [] then stk.contents == []
         else elem.Value() == EntryOf(tasks[|tasks| - 1])
              && stk.contents == [bottom] + EntriesOf(tasks[..|tasks| - 1])
    }

    ghost predicate CountersMatch(calls: seq<Callback>)
      reads this, stats
    {
      forall m :: m != Unknown ==> stats.Get(m) == Count(calls, m)
    }

    constructor (root: Tree, cwd: Path)
      requires WellFormed(root)
      ensures Valid() && this.root == root && this.cwd == cwd && log == [] && stk.contents == []
      ensures stk.created == stk.freed == 0 && stats.ntotal == 0
      ensures fresh(stk) && fresh(stats)
    {
      this.root := root;
      this.stk := new Stack();
      this.stats := new Stats();
      this.cwd := cwd;
      this.log := [];
    }

    // The calling convention of the source: a fresh cell is made, and its copy pushed.
    method PushEntry(name: string, depth: int)
      requires stk.Valid() && |name| < MAX_NAME
      modifies stk, stk.Cells()
      ensures stk.Valid()
      ensures stk.contents == old(stk.contents) + [Entry(name, depth)]
      ensures fresh(stk.Cells() - old(stk.Cells()))
    {
      var elem := new Node(name, depth);
      stk.Push(elem);
    }

    // The marker, then every readdir entry but "." and "..".
    method ReadListing(listing: seq<DirEntry>, depth: nat)
      requires stk.Valid() && forall i :: 0 <= i < |listing| ==> WellFormedEntry(listing[i])
      modifies stk, stk.Cells()
      ensures stk.Valid()
      ensures fresh(stk.Cells() - old(stk.Cells()))
      ensures stk.contents == old(stk.contents) + ([Entry("..", -1)] + EntriesOf(Visits(listing, depth)))
    {
      PushEntry("..", -1);
      ghost var base := stk.contents;
      ghost var pushed := [];
      var i := 0;
      while i < |listing|
        invariant 0 <= i <= |listing| && stk.Valid()
        invariant fresh(stk.Cells() - old(stk.Cells()))
        invariant pushed == EntriesOf(Visits(listing[..i], depth))
        invariant stk.contents == base + pushed
      {
        EntriesSnoc(listing, i, depth);
        var name := EntryName(listing[i]);
        if name != "." && name != ".." {
          PushEntry(name, depth);
          Assoc(base, pushed, [Entry(name, depth)]);
          pushed := pushed + [Entry(name, depth)];
        }
        i := i + 1;
      }
      assert listing[..i] == listing;
      Assoc(old(stk.contents), [Entry("..", -1)], pushed);
    }

    // One node is counted and the visitor called on it.
    method Report(c: Callback)
      requires CountersMatch(log)
      modifies this`log, stats
      ensures CountersMatch(log) && log == old(log) + [c]
    {
      if c.mode != Directory {
        stats.IncStat(c.mode);
        log := log + [c];
      } else {
        log := log + [c];
        stats.ndir := stats.ndir + 1;
      }
      assert log[..|log| - 1] == old(log);
    }

    /** One entry: a marker undoes a chdir; an ordinary name is looked up in the working
        directory, reported and counted, and a directory that opens is entered and has its
        marker and its listing pushed. */
    method DoPath(name: string, depth: int) returns (rc: int)
      requires Valid()
      modifies this, stk, stk.Cells(), stats
      ensures Valid()
      ensures fresh(stk.Cells() - old(stk.Cells()))
      ensures depth < 0 ==>
        var found := At(root, Resolve(old(cwd), name));
        && rc == 0 && log == old(log) && stk.contents == old(stk.contents)
        && cwd == if found != [] && found[0].Dir? && !found[0].chdirFails then Resolve(old(cwd), name) else old(cwd)
      ensures depth >= 0 ==>
        var found := At(root, Resolve(old(cwd), name));
        if found == [] || found[0].lstatFails then
          rc == -1 && log == old(log) && cwd == old(cwd) && stk.contents == old(stk.contents)
        else if found[0].File? then
          && rc == 0 && cwd == old(cwd) && stk.contents == old(stk.contents)
          && log == old(log) + [Callback(name, 1, depth, old(cwd), found[0].kind)]
        else
          && log == old(log) + [Callback(name, 2, depth, old(cwd), Directory)]
          && if found[0].openFails || found[0].chdirFails then
               rc == -1 && cwd == old(cwd) && stk.contents == old(stk.contents)
             else
               && rc == (if found[0].closeFails then -1 else 0) && cwd == Resolve(old(cwd), name)
               && stk.contents == old(stk.contents)
                                  + ([Entry("..", -1)] + EntriesOf(Visits(found[0].listing, depth + 1)))
    {
      if depth < 0 {
        cwd := Chdir(root, cwd, name);
        return 0;
      }
      var p := Resolve(cwd, name);
      var found := At(root, p);
      if found == [] {
        return -1;
      }
      AtWellFormed(root, p);
      rc := VisitNode(found[0], p, name, depth);
    }

    // The part of doPath after the name has been looked up.
    method VisitNode(t: Tree, p: Path, name: string, depth: nat) returns (rc: int)
      requires Valid() && WellFormed(t)
      modifies this, stk, stk.Cells(), stats
      ensures Valid()
      ensures fresh(stk.Cells() - old(stk.Cells()))
      ensures rc == if Succeeds(t) then 0 else -1
      ensures log == Called(old(log), t, old(cwd), name, depth)
      ensures cwd == if t.Opens() then p else old(cwd)
      ensures stk.contents == Pushed(old(stk.contents), t, depth)
    {
      if t.lstatFails {
        return -1;
      }
      if t.File? {
        Report(Callback(name, FTW_FILE, depth, cwd, t.kind));
        return 0;
      }
      Report(Callback(name, FTW_DIR, depth, cwd, Directory));
      rc := OpenDirectory(t, p, depth);
    }

    // The part of doPath after a directory has been reported.
    method OpenDirectory(t: Tree, p: Path, depth: nat) returns (rc: int)
      requires Valid() && WellFormed(t) && t.Dir? && !t.lstatFails
      modifies this`cwd, stk, stk.Cells()
      ensures Valid()
      ensures fresh(stk.Cells() - old(stk.Cells()))
      ensures rc == if Succeeds(t) then 0 else -1
      ensures cwd == if t.Opens() then p else old(cwd)
      ensures stk.contents == Pushed(old(stk.contents), t, depth)
    {
      if t.openFails {
        return -1;
      }
      if t.chdirFails {
        return -1;
      }
      cwd := p;
      ReadListing(t.listing, depth + 1);
      if t.closeFails {
        return -1;
      }
      return 0;
    }

    // One iteration of the loop: the current entry is processed and the next one popped.
    method Iterate(elem: Node, ghost bottom: Entry, ghost init: seq<Task>, ghost t: Task)
       returns (next: Node, empty: bool)
      requires AtHead(elem, bottom, init + [t])
      requires t.Visit? ==> At(root, Resolve(cwd, t.name)) == [t.node]
      modifies this, stk, stk.Cells(), stats
      ensures fresh(stk.Cells() - old(stk.Cells()))
      ensures cwd == NextCwd(root, old(cwd), t)
      ensures log == NextLog(old(log), old(cwd), t)
      ensures fresh(next) && AtHead(next, bottom, NextTasks(init, t))
      ensures empty <==> NextTasks(init, t) == []
    {
      ResolveDotDot(cwd);
      PendingEntries(bottom, init, t);
      assert (init + [t])[..|init|] == init;
      var _ := DoPath(elem.fileName, elem.depth);
      next, empty := PopNext(bottom, NextTasks(init, t));
    }

    // The next entry is popped; the stack is empty when it was the copy of the start entry.
    method PopNext(ghost bottom: Entry, ghost tasks: seq<Task>) returns (next: Node, empty: bool)
      requires Valid() && stk.contents == [bottom] + EntriesOf(tasks)
      modifies stk, stk.Cells()
      ensures stk.Cells() <= old(stk.Cells())
      ensures fresh(next) && AtHead(next, bottom, tasks)
      ensures empty <==> tasks == []
    {
      var popped := stk.Pop();
      next := popped;
      EntriesTop(bottom, tasks, stk.contents, next.Value());
      empty := stk.IsEmpty();
    }

    /** The sum of the counters is the number of calls made, less those of unknown type. */
    lemma SumIsCalls()
      requires Valid()
      ensures stats.Sum() == |log| - Count(log, Unknown)
    {
      CountTotal(log);
      assert stats.Get(Regular) == stats.nreg && stats.Get(Directory) == stats.ndir && stats.Get(Block) == stats.nblk
          && stats.Get(Character) == stats.nchr && stats.Get(Fifo) == stats.nfifo
          && stats.Get(Symlink) == stats.nslink && stats.Get(Socket) == stats.nsock;
    }

    /** The whole walk.  `arg` is the command line's directory; `getcwdFails` is that call's
        outcome.  On success the calls made are exactly the recursive preorder walk of the
        start directory, the stack is empty with every cell it created freed, and the
        process ends in the start's parent if the start opened (or stays, if that parent
        cannot be entered).  The table has one row for each counted file type. */
    method Ftw(arg: string, getcwdFails: bool) returns (r: Result)
      requires Valid() && stk.contents == []
      requires CanEnter(root, Resolve(cwd, arg)) ==> |Join(Resolve(cwd, arg))| < 200
      modifies this, stk, stk.Cells(), stats
      ensures Valid() && stk.contents == [] && stk.created == stk.freed
      ensures var p := Resolve(old(cwd), arg); var found := At(root, p);
        var enters := found != [] && found[0].Dir? && !found[0].chdirFails;
        && (r.Failed? <==> !enters || getcwdFails)
        && (r.Failed? ==> log == old(log) && cwd == if enters then p else old(cwd))
        && (r.Printed? ==>
              var opens := !found[0].lstatFails && !found[0].openFails;
              && log == old(log) + Walk(found[0], p, Join(p), 0)
              && cwd == (if opens && p != [] && !At(root, p[..|p| - 1])[0].chdirFails then p[..|p| - 1] else p)
              && (old(log) == [] ==> (stats.ntotal == 0 <==> found[0].lstatFails))
              && (old(log) == [] && found[0].lstatFails ==> r.table == Undefined)
              && (arg == "." ==> log == old(log) + Walk(found[0], old(cwd), Join(old(cwd)), 0)))
      ensures r.Printed? ==>
        && stats.ntotal == |log| - Count(log, Unknown)
        && (r.table.Undefined? <==>
            || stats.ntotal == 0
            || 100 * Count(log, Regular) > 0x7fff_ffff || 100 * Count(log, Directory) > 0x7fff_ffff
            || 100 * Count(log, Block) > 0x7fff_ffff || 100 * Count(log, Character) > 0x7fff_ffff
            || 100 * Count(log, Fifo) > 0x7fff_ffff || 100 * Count(log, Symlink) > 0x7fff_ffff
            || 100 * Count(log, Socket) > 0x7fff_ffff)
        && (r.table.Percents? ==> 94 <= Total(r.table.shares) <= 100 && r.table.shares == [
              100 * Count(log, Regular) / stats.ntotal, 100 * Count(log, Directory) / stats.ntotal,
              100 * Count(log, Block) / stats.ntotal, 100 * Count(log, Character) / stats.ntotal,
              100 * Count(log, Fifo) / stats.ntotal, 100 * Count(log, Symlink) / stats.ntotal,
              100 * Count(log, Socket) / stats.ntotal
            ])
    {
      var p := Resolve(cwd, arg);
      ResolveSpecial(cwd, "");
      if !CanEnter(root, p) {
        return Failed;
      }
      cwd := p;
      if getcwdFails {
        return Failed;
      }
      WalkHere(Join(p));
      FirstTotal(At(root, p)[0], p, Join(p));
      var table := PrintTotals();
      return Printed(table);
    }

    // The end of ftw.
    method PrintTotals() returns (table: Table)
      requires Valid()
      modifies stats`ntotal
      ensures Valid()
      ensures stats.ntotal == |log| - Count(log, Unknown)
      ensures table.Undefined? <==>
            || stats.ntotal == 0
            || 100 * Count(log, Regular) > 0x7fff_ffff || 100 * Count(log, Directory) > 0x7fff_ffff
            || 100 * Count(log, Block) > 0x7fff_ffff || 100 * Count(log, Character) > 0x7fff_ffff
            || 100 * Count(log, Fifo) > 0x7fff_ffff || 100 * Count(log, Symlink) > 0x7fff_ffff
            || 100 * Count(log, Socket) > 0x7fff_ffff
      ensures table.Percents? ==> 94 <= Total(table.shares) <= 100 && table.shares == [
        100 * Count(log, Regular) / stats.ntotal, 100 * Count(log, Directory) / stats.ntotal,
        100 * Count(log, Block) / stats.ntotal, 100 * Count(log, Character) / stats.ntotal,
        100 * Count(log, Fifo) / stats.ntotal, 100 * Count(log, Symlink) / stats.ntotal,
        100 * Count(log, Socket) / stats.ntotal
      ]
    {
      SumIsCalls();
      RowsAreTypes();
      table := stats.PrintStat();
    }

    lemma RowsAreTypes()
      requires Valid()
      ensures stats.nreg == Count(log, Regular) && stats.ndir == Count(log, Directory)
      ensures stats.nblk == Count(log, Block) && stats.nchr == Count(log, Character)
      ensures stats.nfifo == Count(log, Fifo) && stats.nslink == Count(log, Symlink)
      ensures stats.nsock == Count(log, Socket)
      ensures forall m :: stats.Get(m) >= 0
    {
      assert stats.Get(Regular) == stats.nreg && stats.Get(Directory) == stats.ndir && stats.Get(Block) == stats.nblk
          && stats.Get(Character) == stats.nchr && stats.Get(Fifo) == stats.nfifo
          && stats.Get(Symlink) == stats.nslink && stats.Get(Socket) == stats.nsock;
    }

    // The walk of the working directory, under the name `start` that leads to it.
    method WalkHere(start: string)
      requires Valid() && stk.contents == [] && start == Join(cwd) && |start| < MAX_NAME && At(root, cwd) != []
      modifies this, stk, stk.Cells(), stats
      ensures Valid() && stk.contents == []
      ensures var t := At(root, old(cwd))[0];
              && log == old(log) + Walk(t, old(cwd), start, 0)
              && cwd == if t.Opens() then AfterLeave(root, old(cwd)) else old(cwd)
    {
      ghost var task := Visit(start, At(root, cwd)[0], 0);
      ghost var goal := log + Walk(task.node, cwd, start, 0);
      AtWellFormed(root, cwd);
      ResolveJoin(cwd, cwd);
      StartOnTrack(root, cwd, log, task);
      var elem := new Node(start, 0);
      stk.Push(elem);
      RunLoop(elem, task, goal);
    }

    // The loop of ftw; the entry it starts with is both current and on the stack.
    method RunLoop(start: Node, ghost task: Task, ghost goal: seq<Callback>)
      requires task.Visit? && AtHead(start, EntryOf(task), [task])
      requires OnTrack(root, cwd, log, [task], goal, After(root, cwd, task))
      modifies this, stk, stk.Cells(), stats
      ensures Valid() && stk.contents == [] && log == goal && cwd == After(root, old(cwd), task)
    {
      var elem := start;
      ghost var tasks := [task];
      ghost var final := After(root, cwd, task);
      var empty := stk.IsEmpty();
      while !empty
        invariant fresh(stk.Cells() - old(stk.Cells()))
        invariant elem == start || fresh(elem)
        invariant AtHead(elem, EntryOf(task), tasks) && (empty <==> tasks == [])
        invariant OnTrack(root, cwd, log, tasks, goal, final)
        decreases TasksWeight(tasks)
      {
        ghost var init, t := tasks[..|tasks| - 1], tasks[|tasks| - 1];
        SplitLast(tasks);
        VisitResolves(root, cwd, init, t);
        TaskStep(root, cwd, log, init, t, goal, final);
        elem, empty := Iterate(elem, EntryOf(task), init, t);
        tasks := NextTasks(init, t);
      }
    }
  }

  /** A run whose statistics are undefined: the program is started on a directory that can be
      entered, and on which lstat fails. */
  method WalkWithoutLstat() returns (r: Result)
    ensures r == Printed(Undefined)
  {
    var root := Dir("", true, false, false, false, []);
    ResolveJoin([], []);
    var process := new Process(root, []);
    r := process.Ftw("/", false);
  }

  lemma FirstTotal(start: Tree, p: Path, name: string)
    requires start.Dir?
    ensures var calls := [] + Walk(start, p, name, 0);
            |calls| - Count(calls, Unknown) == 0 <==> start.lstatFails
  {
    LeftNil(Walk(start, p, name, 0));
    ZeroTotal(start, p, name);
  }

  lemma EntriesTop(bottom: Entry, tasks: seq<Task>, rest: seq<Entry>, top: Entry)
    requires [bottom] + EntriesOf(tasks) == rest + [top]
    ensures if tasks == [] then rest == []
            else top == EntryOf(tasks[|tasks| - 1]) && rest == [bottom] + EntriesOf(tasks[..|tasks| - 1])
  {
    var all := [bottom] + EntriesOf(tasks);
    assert all[|all| - 1] == top && all[..|all| - 1] == rest;
  }

  /** The loop's invariant on values: the pending names resolve where they will be used,
      what is left to call completes the goal, and the process will end where it should. */
  ghost predicate OnTrack(root: Tree, cwd: Path, log: seq<Callback>, tasks: seq<Task>, goal: seq<Callback>,
                          final: Path)
  {
    && WellFormed(root)
    && Consistent(root, cwd, tasks)
    && log + Remaining(root, cwd, tasks) == goal
    && FinalCwd(root, cwd, tasks) == final
  }

  lemma StartOnTrack(root: Tree, cwd: Path, log: seq<Callback>, t: Task)
    requires WellFormed(root) && t.Visit? && t.depth == 0 && At(root, Resolve(cwd, t.name)) == [t.node]
    ensures OnTrack(root, cwd, log, [t], log + Walk(t.node, cwd, t.name, 0), After(root, cwd, t))
  {
    Snoc(root, cwd, [], t);
    assert [] + [t] == [t];
    RightNil(Walk(t.node, cwd, t.name, 0));
  }

  /** One iteration, on the pending work: it stays consistent, what is left of the walk
      shrinks by exactly the call made, and the weight drops. */
  lemma TaskStep(root: Tree, cwd: Path, log: seq<Callback>, init: seq<Task>, t: Task, goal: seq<Callback>, final: Path)
    requires OnTrack(root, cwd, log, init + [t], goal, final)
    ensures OnTrack(root, NextCwd(root, cwd, t), NextLog(log, cwd, t), NextTasks(init, t), goal, final)
    ensures TasksWeight(NextTasks(init, t)) < TasksWeight(init + [t])
  {
    if t.Leave? {
      LeaveTaskStep(root, cwd, log, init, t, goal, final);
    } else if t.node.Opens() {
      OpenTaskStep(root, cwd, log, init, t, goal, final);
    } else {
      ClosedTaskStep(root, cwd, log, init, t, goal, final);
    }
  }

  lemma VisitResolves(root: Tree, cwd: Path, init: seq<Task>, t: Task)
    requires Consistent(root, cwd, init + [t])
    ensures t.Visit? ==> At(root, Resolve(cwd, t.name)) == [t.node]
  {
    Snoc(root, cwd, init, t);
  }

  lemma LeaveTaskStep(root: Tree, cwd: Path, log: seq<Callback>, init: seq<Task>, t: Task, goal: seq<Callback>,
                      final: Path)
    requires t.Leave? && OnTrack(root, cwd, log, init + [t], goal, final)
    ensures OnTrack(root, NextCwd(root, cwd, t), NextLog(log, cwd, t), NextTasks(init, t), goal, final)
    ensures TasksWeight(NextTasks(init, t)) < TasksWeight(init + [t])
  {
    Snoc(root, cwd, init, t);
  }

  lemma ClosedTaskStep(root: Tree, cwd: Path, log: seq<Callback>, init: seq<Task>, t: Task,
                       goal: seq<Callback>, final: Path)
    requires t.Visit? && !t.node.Opens() && OnTrack(root, cwd, log, init + [t], goal, final)
    ensures OnTrack(root, NextCwd(root, cwd, t), NextLog(log, cwd, t), NextTasks(init, t), goal, final)
    ensures TasksWeight(NextTasks(init, t)) < TasksWeight(init + [t])
  {
    Snoc(root, cwd, init, t);
    ClosedWalk(t.node, cwd, t.name, t.depth);
    if t.node.lstatFails {
      LeftNil(Remaining(root, cwd, init));
    } else {
      Assoc(log, [CallOn(t.node, cwd, t.name, t.depth)], Remaining(root, cwd, init));
    }
  }

  lemma OpenTaskStep(root: Tree, cwd: Path, log: seq<Callback>, init: seq<Task>, t: Task, goal: seq<Callback>,
                     final: Path)
    requires t.Visit? && t.node.Opens() && OnTrack(root, cwd, log, init + [t], goal, final)
    ensures OnTrack(root, NextCwd(root, cwd, t), NextLog(log, cwd, t), NextTasks(init, t), goal, final)
    ensures TasksWeight(NextTasks(init, t)) < TasksWeight(init + [t])
  {
    OpenStep(root, cwd, init, t.name, t.node, t.depth);
    Assoc(log, [CallOn(t.node, cwd, t.name, t.depth)], Remaining(root, Resolve(cwd, t.name), NextTasks(init, t)));
  }

  ghost function NextLog(log: seq<Callback>, cwd: Path, t: Task): seq<Callback> {
    if t.Leave? then log else Called(log, t.node, cwd, t.name, t.depth)
  }

  lemma ClosedWalk(node: Tree, cwd: Path, name: string, depth: nat)
    requires !node.Opens()
    ensures Walk(node, cwd, name, depth) == if node.lstatFails then [] else [CallOn(node, cwd, name, depth)]
    ensures Weight(node) > 0
  {
  }

  ghost function NextTasks(init: seq<Task>, t: Task): seq<Task> {
    if t.Visit? && t.node.Opens() then init + [Leave] + Visits(t.node.listing, t.depth + 1) else init
  }

  ghost function NextCwd(root: Tree, cwd: Path, t: Task): Path {
    if t.Leave? then AfterLeave(root, cwd) else if t.node.Opens() then Resolve(cwd, t.name) else cwd
  }
}
