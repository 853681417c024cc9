/** The static file tree a walk runs over, and path resolution in it. */
module FileTree {
  import opened NodeStack
  import opened Pieces

  /** The file-type bits of `st_mode`; `Unknown` is any value no case of incStat names. */
  datatype Mode = Directory | Regular | Block | Character | Fifo | Symlink | Socket | Unknown

  /** Each node carries its own failure flags, so every pattern of failing calls is covered. */
  datatype Tree =
    | File(name: string, lstatFails: bool, kind: Mode)
    | Dir(name: string, lstatFails: bool, openFails: bool, chdirFails: bool, closeFails: bool, listing: seq<DirEntry>)
  {
    function ModeOf(): Mode { if File? then kind else Directory }

    // The walk descends into this node.
    predicate Opens() { Dir? && !lstatFails && !openFails && !chdirFails }
  }

  /** What readdir yields, in its own order: the two special entries, and children. */
  datatype DirEntry = Dot | DotDot | Child(node: Tree)

  function EntryName(e: DirEntry): string {
    match e
    case Dot => "."
    case DotDot => ".."
    case Child(t) => t.name
  }

  type Path = seq<string>

  // ---------------------------------------------------------------- well-formed trees

  predicate ValidName(s: string) {
    s != "" && s != "." && s != ".." && '/' !in s && |s| < MAX_NAME
  }

  ghost predicate WellFormed(t: Tree) {
    match t
    case File(_, _, kind) => kind != Directory
    case Dir(_, _, _, _, _, listing) => WellFormedListing(listing)
  }

  ghost predicate WellFormedEntry(e: DirEntry) {
    e.Child? ==> ValidName(e.node.name) && WellFormed(e.node)
  }

  ghost predicate WellFormedListing(es: seq<DirEntry>) {
    && (forall i :: 0 <= i < |es| ==> WellFormedEntry(es[i]))
    && (forall i, j :: 0 <= i < j < |es| && es[i].Child? && es[j].Child? ==> es[i].node.name != es[j].node.name)
  }

  // ---------------------------------------------------------------- path resolution

  function Parent(p: Path): Path {
    if p == [] then [] else p[..|p| - 1]
  }

  function Enter(p: Path, c: string): Path {
    if c == "" || c == "." then p else if c == ".." then Parent(p) else p + [c]
  }

  function Follow(p: Path, cs: seq<string>): Path
    decreases |cs|
  {
    if cs == [] then p else Follow(Enter(p, cs[0]), cs[1..])
  }

  function IndexOf(s: string, c: char): (i: nat)
    ensures i <= |s|
    ensures i < |s| ==> s[i] == c
    ensures c !in s[..i]
  {
    if s == "" || s[0] == c then 0 else
      var r := 1 + IndexOf(s[1..], c);
      assert s[..r] == [s[0]] + s[1..][..r - 1];
      r
  }

  function Split(s: string): seq<string>
    decreases |s|
  {
    var i := IndexOf(s, '/');
    if i == |s| then [s] else [s[..i]] + Split(s[i + 1..])
  }

  /** The directory tree position a string names for a process working in `cwd`. */
  function Resolve(cwd: Path, s: string): Path {
    Follow(if s != "" && s[0] == '/' then [] else cwd, Split(s))
  }

  function JoinNames(p: Path): string {
    if p == [] then "" else "/" + p[0] + JoinNames(p[1..])
  }

  // What getcwd reports for a process working in `p`.
  function Join(p: Path): string {
    if p == [] then "/" else JoinNames(p)
  }

  function FindChild(es: seq<DirEntry>, name: string): (r: seq<Tree>)
    ensures |r| <= 1
  {
    if es == [] then []
    else if es[0].Child? && es[0].node.name == name then [es[0].node]
    else FindChild(es[1..], name)
  }

  /** The node at a path: a one-element sequence, or empty when there is none. */
  function At(root: Tree, p: Path): (r: seq<Tree>)
    ensures |r| <= 1
    decreases |p|
  {
    if p == [] then [root] else
      var d := At(root, p[..|p| - 1]);
      if d != [] && d[0].Dir? then FindChild(d[0].listing, p[|p| - 1]) else []
  }

  predicate CanEnter(root: Tree, p: Path) {
    At(root, p) != [] && At(root, p)[0].Dir? && !At(root, p)[0].chdirFails
  }

  /** The working directory after chdir(s), which stays put when the call fails. */
  function Chdir(root: Tree, cwd: Path, s: string): Path {
    if CanEnter(root, Resolve(cwd, s)) then Resolve(cwd, s) else cwd
  }

  // ---------------------------------------------------------------- lemmas

  lemma {:induction false} IndexOfPrefix(a: string, c: char, b: string)
    requires c !in a
    ensures IndexOf(a + [c] + b, c) == |a|
    ensures IndexOf(a, c) == |a|
  {
    if a == "" {
      assert a + [c] + b == [c] + b;
    } else {
      assert (a + [c] + b)[1..] == a[1..] + [c] + b;
      IndexOfPrefix(a[1..], c, b);
    }
  }

  /** A path without slashes is one component; a slash ends the one before it. */
  lemma SplitName(a: string)
    requires '/' !in a
    ensures Split(a) == [a]
  {
    IndexOfPrefix(a, '/', "");
  }

  lemma SplitCons(a: string, b: string)
    requires '/' !in a
    ensures Split(a + "/" + b) == [a] + Split(b)
  {
    IndexOfPrefix(a, '/', b);
    assert (a + "/" + b)[..|a|] == a && (a + "/" + b)[|a| + 1..] == b;
  }

  ghost predicate ValidPath(p: Path) {
    forall i :: 0 <= i < |p| ==> ValidName(p[i])
  }

  lemma {:induction false} SplitJoinNames(c: string, p: Path)
    requires '/' !in c && ValidPath(p)
    ensures Split(c + JoinNames(p)) == [c] + p
    decreases |p|
  {
    if p == [] {
      assert c + "" == c;
      SplitName(c);
    } else {
      var rest := p[0] + JoinNames(p[1..]);
      assert c + JoinNames(p) == c + "/" + rest;
      SplitCons(c, rest);
      SplitJoinNames(p[0], p[1..]);
      assert [p[0]] + p[1..] == p;
    }
  }

  lemma {:induction false} FollowNames(b: Path, p: Path)
    requires ValidPath(p)
    ensures Follow(b, p) == b + p
    decreases |p|
  {
    if p != [] {
      FollowNames(b + [p[0]], p[1..]);
      assert b + [p[0]] + p[1..] == b + p;
    } else {
      assert b + p == b;
    }
  }

  /** getcwd's string leads back to the directory it was taken in, from anywhere. */
  lemma ResolveJoin(cwd: Path, p: Path)
    requires ValidPath(p)
    ensures Resolve(cwd, Join(p)) == p
  {
    FollowNames([], p);
    if p == [] {
      SplitCons("", "");
      SplitName("");
      assert "" + "/" + "" == "/";
      assert Follow([], [""]) == [];
      assert Follow([], ["", ""]) == [];
    } else {
      SplitJoinNames("", p);
      assert "" + JoinNames(p) == JoinNames(p);
      assert ([""] + p)[1..] == p;
    }
  }

  lemma ResolveName(cwd: Path, name: string)
    requires ValidName(name)
    ensures Resolve(cwd, name) == cwd + [name]
  {
    SplitName(name);
    FollowNames(cwd, [name]);
  }

  lemma ResolveDotDot(cwd: Path)
    ensures Resolve(cwd, "..") == Parent(cwd)
  {
    SplitName("..");
    assert Split("..")[1..] == [];
    assert Follow(cwd, [".."]) == Follow(Parent(cwd), []);
  }

  /** In a well-formed listing, looking a child's name up finds that child. */
  lemma {:induction false} FindChildAt(es: seq<DirEntry>, k: nat)
    requires WellFormedListing(es) && k < |es| && es[k].Child?
    ensures FindChild(es, es[k].node.name) == [es[k].node]
  {
    if k > 0 {
      FindChildAt(es[1..], k - 1);
    }
  }

  lemma {:induction false} FindChildIn(es: seq<DirEntry>, name: string)
    ensures FindChild(es, name) != [] ==> Child(FindChild(es, name)[0]) in es && FindChild(es, name)[0].name == name
  {
    if es != [] {
      FindChildIn(es[1..], name);
    }
  }

  lemma {:induction false} AtWellFormed(root: Tree, p: Path)
    requires WellFormed(root)
    ensures At(root, p) != [] ==> WellFormed(At(root, p)[0]) && ValidPath(p)
    decreases |p|
  {
    if p != [] && At(root, p) != [] {
      var q := p[..|p| - 1];
      AtWellFormed(root, q);
      FindChildIn(At(root, q)[0].listing, p[|p| - 1]);
      assert WellFormedEntry(Child(At(root, p)[0]));
    }
  }

  lemma AtChild(root: Tree, p: Path, k: nat)
    requires WellFormed(root) && At(root, p) != [] && At(root, p)[0].Dir?
    requires k < |At(root, p)[0].listing| && At(root, p)[0].listing[k].Child?
    ensures At(root, p + [At(root, p)[0].listing[k].node.name]) == [At(root, p)[0].listing[k].node]
  {
    var c := At(root, p)[0].listing[k].node;
    AtWellFormed(root, p);
    FindChildAt(At(root, p)[0].listing, k);
    assert (p + [c.name])[..|p|] == p;
  }

  // ---------------------------------------------------------------- what path strings mean

  /** "." is the directory itself; ".." is the one above, which for the root is the root. */
  lemma ResolveSpecial(p: Path, name: string)
    ensures Resolve(p, ".") == p
    ensures Resolve(p + [name], "..") == p && Resolve([], "..") == []
  {
    SplitName(".");
    assert Split(".")[1..] == [];
    assert Follow(p, ["."]) == Follow(p, []);
    ResolveDotDot(p + [name]);
    ResolveDotDot([]);
    assert (p + [name])[..|p|] == p;
  }

  /** The names of a path with slashes between them, as a relative path is written. */
  function Relative(p: Path): string
    requires p != []
  {
    p[0] + JoinNames(p[1..])
  }

  /** A relative path leads down from the working directory, an absolute one from the root. */
  lemma ResolveNames(cwd: Path, p: Path)
    requires ValidPath(p) && p != []
    ensures Resolve(cwd, Relative(p)) == cwd + p
    ensures Resolve(cwd, "/" + Relative(p)) == p
  {
    RelativeSplit(p);
    FollowNames(cwd, p);
    Assoc("/", p[0], JoinNames(p[1..]));
    ResolveJoin(cwd, p);
  }

  lemma RelativeSplit(p: Path)
    requires ValidPath(p) && p != []
    ensures Split(Relative(p)) == p && Relative(p) != "" && Relative(p)[0] != '/'
  {
    SplitJoinNames(p[0], p[1..]);
    assert [p[0]] + p[1..] == p;
  }

  /** Empty components and "." are passed over, ".." undoes the name before it. */
  lemma {:induction false} FollowComponents(p: Path, before: seq<string>, name: string, after: seq<string>)
    requires ValidName(name)
    ensures Follow(p, before + [""] + after) == Follow(p, before + after)
    ensures Follow(p, before + ["."] + after) == Follow(p, before + after)
    ensures Follow(p, before + [name, ".."] + after) == Follow(p, before + after)
    decreases |before|
  {
    if before == [] {
      assert [] + after == after;
      assert ([""] + after)[1..] == after && (["."] + after)[1..] == after;
      var up := [name, ".."] + after;
      assert up[1..][0] == ".." && up[1..][1..] == after;
      assert Enter(Enter(p, name), "..") == p;
    } else {
      var q := Enter(p, before[0]);
      FollowComponents(q, before[1..], name, after);
      assert (before + [""] + after)[1..] == before[1..] + [""] + after;
      assert (before + ["."] + after)[1..] == before[1..] + ["."] + after;
      assert (before + [name, ".."] + after)[1..] == before[1..] + [name, ".."] + after;
      assert (before + after)[1..] == before[1..] + after;
    }
  }

  /** What getcwd reports: a slash before every name, and a single slash for the root. */
  lemma {:induction false} JoinShape(p: Path, name: string)
    ensures Join([]) == "/" && Join(p + [name]) == (if p == [] then "" else Join(p)) + ("/" + name)
  {
    JoinNamesSnoc(p, name);
  }

  lemma {:induction false} JoinNamesSnoc(p: Path, name: string)
    ensures JoinNames(p + [name]) == JoinNames(p) + ("/" + name)
    decreases |p|
  {
    if p == [] {
      assert [name][1..] == [];
      assert "/" + name + "" == "" + ("/" + name);
    } else {
      JoinNamesSnoc(p[1..], name);
      assert (p + [name])[0] == p[0] && (p + [name])[1..] == p[1..] + [name];
      assert "/" + p[0] + (JoinNames(p[1..]) + ("/" + name)) == "/" + p[0] + JoinNames(p[1..]) + ("/" + name);
    }
  }
}
