/** What the walk of lab_02/main.c is meant to do, as functions of the tree:
    a recursive preorder walk that takes the children in reverse readdir order,
    and the pending work a stack of entries stands for. */
module WalkSpec {
  import opened NodeStack
  import opened FileTree
  import opened Pieces

  const FTW_FILE := 1
  const FTW_DIR := 2

  /** One call of the visitor: its three arguments, the process's working directory at
      that moment, and the file type lstat had just reported. */
  datatype Callback = Callback(name: string, ftype: int, depth: int, cwd: Path, mode: Mode)

  /** The node the visitor was called on. */
  function PathOf(c: Callback): Path { Resolve(c.cwd, c.name) }

  // ---------------------------------------------------------------- recursive preorder walk

  ghost function Walk(t: Tree, cwd: Path, name: string, depth: nat): seq<Callback> {
    if t.lstatFails then []
    else if t.File? then [Callback(name, FTW_FILE, depth, cwd, t.kind)]
    else [Callback(name, FTW_DIR, depth, cwd, Directory)]
         + if t.Opens() then WalkListing(t.listing, Resolve(cwd, name), depth + 1) else []
  }

  ghost function WalkListing(es: seq<DirEntry>, cwd: Path, depth: nat): seq<Callback> {
    if es == [] then []
    else WalkEntry(es[|es| - 1], cwd, depth) + WalkListing(es[..|es| - 1], cwd, depth)
  }

  ghost function WalkEntry(e: DirEntry, cwd: Path, depth: nat): seq<Callback> {
    if e.Child? then Walk(e.node, cwd, e.node.name, depth) else []
  }

  // ---------------------------------------------------------------- pending work

  /** The meaning of a stack entry: leave a directory, or visit a node. */
  datatype Task = Leave | Visit(name: string, node: Tree, depth: nat)

  ghost function EntryOf(t: Task): Entry {
    match t
    case Leave => Entry("..", -1)
    case Visit(name, _, depth) => Entry(name, depth)
  }

  ghost function EntriesOf(ts: seq<Task>): (s: seq<Entry>)
    ensures |s| == |ts|
  {
    seq(|ts|, i requires 0 <= i < |ts| => EntryOf(ts[i]))
  }

  /** What pushing a whole listing adds, "." and ".." left out. */
  ghost function Visits(es: seq<DirEntry>, depth: nat): seq<Task> {
    if es == [] then []
    else
      var e, before := es[|es| - 1], Visits(es[..|es| - 1], depth);
      if e.Child? then before + [Visit(e.node.name, e.node, depth)] else before
  }

  ghost function AfterLeave(root: Tree, cwd: Path): Path {
    if CanEnter(root, Parent(cwd)) then Parent(cwd) else cwd
  }

  /** The working directory once a task, and everything it spawns, is done. */
  ghost function After(root: Tree, cwd: Path, t: Task): Path {
    match t
    case Leave => AfterLeave(root, cwd)
    case Visit(name, node, _) =>
      if node.Opens() then AfterLeave(root, Resolve(cwd, name)) else cwd
  }

  ghost function Leaves(ts: seq<Task>): nat {
    if ts == [] then 0 else Leaves(ts[..|ts| - 1]) + if ts[|ts| - 1].Leave? then 1 else 0
  }

  /** Every pending name resolves to its node from the directory the process will be in
      when its turn comes, and every pending depth is the number of markers below it. */
  ghost predicate Consistent(root: Tree, cwd: Path, ts: seq<Task>)
    decreases |ts|
  {
    ts == [] ||
    var t := ts[|ts| - 1];
    && (t.Visit? ==> At(root, Resolve(cwd, t.name)) == [t.node] && t.depth == Leaves(ts[..|ts| - 1]))
    && Consistent(root, After(root, cwd, t), ts[..|ts| - 1])
  }

  /** The callbacks still to be made. */
  ghost function Remaining(root: Tree, cwd: Path, ts: seq<Task>): seq<Callback>
    decreases |ts|
  {
    if ts == [] then []
    else
      var t := ts[|ts| - 1];
      var rest := Remaining(root, After(root, cwd, t), ts[..|ts| - 1]);
      if t.Visit? then Walk(t.node, cwd, t.name, t.depth) + rest else rest
  }

  /** Where the process ends up when all tasks are done. */
  ghost function FinalCwd(root: Tree, cwd: Path, ts: seq<Task>): Path
    decreases |ts|
  {
    if ts == [] then cwd else FinalCwd(root, After(root, cwd, ts[|ts| - 1]), ts[..|ts| - 1])
  }

  // ---------------------------------------------------------------- termination weight

  ghost function Weight(t: Tree): nat {
    match t
    case File(_, _, _) => 1
    case Dir(_, _, _, _, _, listing) => 2 + ListingWeight(listing)
  }

  ghost function ListingWeight(es: seq<DirEntry>): nat {
    if es == [] then 0
    else ListingWeight(es[..|es| - 1]) + EntryWeight(es[|es| - 1])
  }

  ghost function EntryWeight(e: DirEntry): nat {
    if e.Child? then Weight(e.node) else 0
  }

  ghost function TasksWeight(ts: seq<Task>): nat {
    if ts == [] then 0
    else TasksWeight(ts[..|ts| - 1]) + match ts[|ts| - 1] case Leave => 1 case Visit(_, node, _) => Weight(node)
  }

  // ---------------------------------------------------------------- one loop iteration

  lemma Snoc(root: Tree, cwd: Path, ts: seq<Task>, t: Task)
    ensures Leaves(ts + [t]) == Leaves(ts) + if t.Leave? then 1 else 0
    ensures Consistent(root, cwd, ts + [t]) <==>
            && (t.Visit? ==> At(root, Resolve(cwd, t.name)) == [t.node] && t.depth == Leaves(ts))
            && Consistent(root, After(root, cwd, t), ts)
    ensures var rest := Remaining(root, After(root, cwd, t), ts);
            Remaining(root, cwd, ts + [t]) == if t.Visit? then Walk(t.node, cwd, t.name, t.depth) + rest else rest
    ensures FinalCwd(root, cwd, ts + [t]) == FinalCwd(root, After(root, cwd, t), ts)
    ensures TasksWeight(ts + [t])
            == TasksWeight(ts) + match t case Leave => 1 case Visit(_, node, _) => Weight(node)
  {
    var us := ts + [t];
    assert us[|us| - 1] == t && us[..|us| - 1] == ts;
  }

  /** The named entries of `es` are the children of the directory at `p`. */
  ghost predicate ChildAt(root: Tree, p: Path, e: DirEntry) {
    e.Child? ==> ValidName(e.node.name) && At(root, p + [e.node.name]) == [e.node]
  }

  ghost predicate ChildrenAt(root: Tree, p: Path, es: seq<DirEntry>) {
    forall i :: 0 <= i < |es| ==> ChildAt(root, p, es[i])
  }

  lemma ListingChildren(root: Tree, p: Path)
    requires WellFormed(root) && At(root, p) != [] && At(root, p)[0].Dir?
    ensures ChildrenAt(root, p, At(root, p)[0].listing)
  {
    var es := At(root, p)[0].listing;
    AtWellFormed(root, p);
    forall i | 0 <= i < |es| ensures ChildAt(root, p, es[i]) {
      assert WellFormedEntry(es[i]);
      if es[i].Child? {
        AtChild(root, p, i);
      }
    }
  }

  /** Pending work `ts` is pending work `base` with `calls` to be made first. */
  ghost predicate Extends(root: Tree, p: Path, base: seq<Task>, ts: seq<Task>, calls: seq<Callback>, weight: nat) {
    && Leaves(ts) == Leaves(base)
    && Consistent(root, p, ts)
    && Remaining(root, p, ts) == calls + Remaining(root, p, base)
    && FinalCwd(root, p, ts) == FinalCwd(root, p, base)
    && TasksWeight(ts) == weight + TasksWeight(base)
  }

  /** A child pushed last while working in its directory. */
  lemma PushChild(root: Tree, p: Path, base: seq<Task>, ts: seq<Task>, calls: seq<Callback>, weight: nat, e: DirEntry)
    requires CanEnter(root, p) && e.Child? && ChildAt(root, p, e)
    requires Extends(root, p, base, ts, calls, weight)
    ensures var c := e.node; var depth := Leaves(base);
            Extends(root, p, base, ts + [Visit(c.name, c, depth)],
                    Walk(c, p, c.name, depth) + calls, weight + Weight(c))
  {
    var c := e.node;
    var t := Visit(c.name, c, Leaves(base));
    ChildReturns(root, p, c.name, t);
    Snoc(root, p, ts, t);
    Assoc(Walk(c, p, c.name, Leaves(base)), calls, Remaining(root, p, base));
  }

  // A child visited from its directory leaves the process there.
  lemma ChildReturns(root: Tree, p: Path, name: string, t: Task)
    requires CanEnter(root, p) && ValidName(name) && t.Visit? && t.name == name
    ensures Resolve(p, name) == p + [name] && After(root, p, t) == p
  {
    ResolveName(p, name);
    assert Parent(p + [name]) == p;
  }

  lemma ListingSnoc(es: seq<DirEntry>, p: Path, depth: nat)
    requires es != []
    ensures var e := es[|es| - 1]; var init := es[..|es| - 1];
            WalkListing(es, p, depth) == WalkEntry(e, p, depth) + WalkListing(init, p, depth)
  {
  }

  lemma VisitsSnoc(es: seq<DirEntry>, depth: nat)
    requires es != []
    ensures var e := es[|es| - 1]; var init := es[..|es| - 1];
            && ListingWeight(es) == ListingWeight(init) + EntryWeight(e)
            && Visits(es, depth)
               == if e.Child? then Visits(init, depth) + [Visit(e.node.name, e.node, depth)] else Visits(init, depth)
  {
  }

  /** A listing's work is its children's, in the order in which they are listed. */
  lemma VisitsAre(es: seq<DirEntry>, t: Tree, depth: nat)
    ensures Visits([], depth) == []
    ensures Visits(es + [Dot], depth) == Visits(es + [DotDot], depth) == Visits(es, depth)
    ensures Visits(es + [Child(t)], depth) == Visits(es, depth) + [Visit(t.name, t, depth)]
  {
    assert (es + [Dot])[..|es|] == es && (es + [DotDot])[..|es|] == es && (es + [Child(t)])[..|es|] == es;
  }

  // One more entry of a listing.
  lemma PushNext(root: Tree, p: Path, base: seq<Task>, es: seq<DirEntry>, depth: nat)
    requires CanEnter(root, p) && es != [] && ChildAt(root, p, es[|es| - 1]) && Leaves(base) == depth
    requires var init := es[..|es| - 1];
             Extends(root, p, base, base + Visits(init, depth), WalkListing(init, p, depth), ListingWeight(init))
    ensures Extends(root, p, base, base + Visits(es, depth), WalkListing(es, p, depth), ListingWeight(es))
  {
    var init, e := es[..|es| - 1], es[|es| - 1];
    var calls := WalkListing(init, p, depth);
    ListingSnoc(es, p, depth);
    VisitsSnoc(es, depth);
    if e.Child? {
      Assoc(base, Visits(init, depth), [Visit(e.node.name, e.node, depth)]);
      PushChild(root, p, base, base + Visits(init, depth), calls, ListingWeight(init), e);
    } else {
      LeftNil(calls);
    }
  }

  lemma PushNothing(root: Tree, p: Path, base: seq<Task>, depth: nat)
    requires Leaves(base) == depth && Consistent(root, p, base)
    ensures Extends(root, p, base, base + Visits([], depth), WalkListing([], p, depth), ListingWeight([]))
  {
    RightNil(base);
    LeftNil(Remaining(root, p, base));
  }

  /** Entering a directory and pushing its listing keeps the pending work in step with
      the recursive walk. */
  lemma {:induction false} PushListing(root: Tree, p: Path, base: seq<Task>, es: seq<DirEntry>, depth: nat)
    requires CanEnter(root, p) && ChildrenAt(root, p, es)
    requires Leaves(base) == depth && Consistent(root, p, base)
    ensures Extends(root, p, base, base + Visits(es, depth), WalkListing(es, p, depth), ListingWeight(es))
    decreases |es|
  {
    if es == [] {
      PushNothing(root, p, base, depth);
    } else {
      PushListing(root, p, base, es[..|es| - 1], depth);
      PushNext(root, p, base, es, depth);
    }
  }

  lemma OpensWalk(node: Tree, cwd: Path, name: string, depth: nat)
    requires node.Opens()
    ensures Walk(node, cwd, name, depth)
            == [Callback(name, FTW_DIR, depth, cwd, Directory)]
               + WalkListing(node.listing, Resolve(cwd, name), depth + 1)
    ensures Weight(node) == 2 + ListingWeight(node.listing)
  {
  }

  lemma LeaveStep(root: Tree, cwd: Path, init: seq<Task>, name: string, node: Tree, depth: nat)
    requires node.Opens() && Consistent(root, cwd, init + [Visit(name, node, depth)])
    ensures var ts := init + [Visit(name, node, depth)];
            var p := Resolve(cwd, name);
            && At(root, p) == [node] && Leaves(init + [Leave]) == depth + 1
            && Consistent(root, p, init + [Leave])
            && Remaining(root, cwd, ts) == Walk(node, cwd, name, depth) + Remaining(root, p, init + [Leave])
            && FinalCwd(root, p, init + [Leave]) == FinalCwd(root, cwd, ts)
            && TasksWeight(ts) == Weight(node) - 1 + TasksWeight(init + [Leave])
  {
    var p := Resolve(cwd, name);
    var t := Visit(name, node, depth);
    Snoc(root, cwd, init, t);
    Snoc(root, p, init, Leave);
  }

  /** Visiting a directory that opens trades its task for a marker and its children. */
  lemma OpenStep(root: Tree, cwd: Path, init: seq<Task>, name: string, node: Tree, depth: nat)
    requires WellFormed(root) && node.Opens()
    requires Consistent(root, cwd, init + [Visit(name, node, depth)])
    ensures var ts := init + [Visit(name, node, depth)];
            var p := Resolve(cwd, name);
            var next := init + [Leave] + Visits(node.listing, depth + 1);
            && CanEnter(root, p)
            && Consistent(root, p, next)
            && Remaining(root, cwd, ts) == [Callback(name, FTW_DIR, depth, cwd, Directory)] + Remaining(root, p, next)
            && FinalCwd(root, p, next) == FinalCwd(root, cwd, ts)
            && TasksWeight(next) == TasksWeight(ts) - 1
  {
    var p := Resolve(cwd, name);
    var base := init + [Leave];
    LeaveStep(root, cwd, init, name, node, depth);
    ListingChildren(root, p);
    PushListing(root, p, base, node.listing, depth + 1);
    OpensWalk(node, cwd, name, depth);
    var own := Callback(name, FTW_DIR, depth, cwd, Directory);
    Assoc([own], WalkListing(node.listing, p, depth + 1), Remaining(root, p, base));
  }
}
