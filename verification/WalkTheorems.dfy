/** What the recursive walk means without reading its recursion: which nodes are visited,
    how often, in which order, at which depth and from which directory. */
module WalkTheorems {
  import opened FileTree
  import opened WalkSpec
  import opened Walker

  /** A directory on which lstat, opendir and chdir all succeed. */
  ghost predicate Readable(t: Tree) {
    t.Dir? && !t.lstatFails && !t.openFails && !t.chdirFails
  }

  /** `x` lies at or below `q`, every directory on the way opened, and lstat works on it. */
  ghost predicate Reached(root: Tree, q: Path, x: Path) {
    && q <= x
    && (forall k :: |q| <= k < |x| ==> At(root, x[..k]) != [] && Readable(At(root, x[..k])[0]))
    && At(root, x) != [] && !At(root, x)[0].lstatFails
  }

  /** `x` is visited before `y`: an ancestor first, and of two siblings the one readdir
      listed later. */
  ghost predicate Before(root: Tree, x: Path, y: Path) {
    x < y || exists k: nat, i: nat, j: nat :: Diverge(root, x, y, k, i, j)
  }

  ghost predicate Diverge(root: Tree, x: Path, y: Path, k: nat, i: nat, j: nat) {
    && k < |x| && k < |y| && x[..k] == y[..k]
    && At(root, x[..k]) != [] && At(root, x[..k])[0].Dir?
    && var es := At(root, x[..k])[0].listing;
       j < i < |es| && es[i].Child? && es[j].Child? && es[i].node.name == x[k] && es[j].node.name == y[k]
  }

  /** A call made for a node at or below `q`, where `q` itself would be at `depth`. */
  ghost predicate GoodCall(root: Tree, q: Path, depth: int, c: Callback) {
    var x := PathOf(c);
    && Reached(root, q, x)
    && c.depth == depth + |x| - |q|
    && c.mode == (if At(root, x)[0].Dir? then Directory else At(root, x)[0].kind)
    && c.ftype == (if At(root, x)[0].Dir? then 2 else 1)
    && (x != q ==> c.cwd == Parent(x))
  }

  ghost predicate Ordered(root: Tree, calls: seq<Callback>) {
    forall a, b :: 0 <= a < b < |calls| ==> Before(root, PathOf(calls[a]), PathOf(calls[b]))
  }

  // Calls made below the listing `es` of the directory at `p`: each under one of its children.
  ghost predicate Under(p: Path, es: seq<DirEntry>, c: Callback) {
    exists k :: 0 <= k < |es| && es[k].Child? && p + [es[k].node.name] <= PathOf(c)
  }

  // `es` is a prefix of the listing of an open directory at `p`.
  ghost predicate OpenAt(root: Tree, p: Path, es: seq<DirEntry>) {
    && WellFormed(root)
    && At(root, p) != [] && At(root, p)[0].Opens()
    && es <= At(root, p)[0].listing
  }

  lemma ReachedThrough(root: Tree, p: Path, n: string, x: Path)
    requires Reached(root, p + [n], x) && At(root, p) != [] && At(root, p)[0].Opens()
    ensures Reached(root, p, x) && |x| > |p| && x[|p|] == n
  {
    assert x[..|p|] == (p + [n])[..|p|] == p;
    assert x[|p|] == (p + [n])[|p|];
    forall k | |p| <= k < |x| ensures At(root, x[..k]) != [] && At(root, x[..k])[0].Opens() {
    }
  }

  lemma GoodChild(root: Tree, p: Path, n: string, depth: int, c: Callback)
    requires GoodCall(root, p + [n], depth + 1, c) && At(root, p) != [] && At(root, p)[0].Opens()
    requires c.cwd == p || PathOf(c) != p + [n]
    ensures GoodCall(root, p, depth, c)
  {
    ReachedThrough(root, p, n, PathOf(c));
    assert Parent(p + [n]) == p;
  }

  lemma {:induction false} WalkGood(root: Tree, t: Tree, cwd: Path, name: string, depth: nat)
    requires WellFormed(root) && At(root, Resolve(cwd, name)) == [t]
    ensures forall c :: c in Walk(t, cwd, name, depth) ==> GoodCall(root, Resolve(cwd, name), depth, c)
    ensures forall c :: c in Walk(t, cwd, name, depth) && PathOf(c) == Resolve(cwd, name) ==> c.cwd == cwd
    decreases t, 1
  {
    var q := Resolve(cwd, name);
    AtWellFormed(root, q);
    if t.Opens() {
      ListingGood(root, q, t.listing, depth + 1);
    }
    forall c | c in Walk(t, cwd, name, depth)
      ensures GoodCall(root, q, depth, c) && (PathOf(c) == q ==> c.cwd == cwd)
    {
      if t.Opens() && c in WalkListing(t.listing, q, depth + 1) {
      } else {
        assert PathOf(c) == q;
      }
    }
  }

  lemma {:induction false} ListingGood(root: Tree, p: Path, es: seq<DirEntry>, depth: nat)
    requires OpenAt(root, p, es) && depth > 0
    ensures forall c :: c in WalkListing(es, p, depth) ==>
              GoodCall(root, p, depth - 1, c) && Under(p, es, c) && |PathOf(c)| > |p|
    decreases es, 0
  {
    if es != [] {
      var k := |es| - 1;
      var e := es[k];
      ListingGood(root, p, es[..k], depth);
      ListingChildren(root, p);
      assert ChildAt(root, p, At(root, p)[0].listing[k]);
      if e.Child? {
        ResolveName(p, e.node.name);
        WalkGood(root, e.node, p, e.node.name, depth);
      }
      forall c | c in WalkListing(es, p, depth)
        ensures GoodCall(root, p, depth - 1, c) && Under(p, es, c) && |PathOf(c)| > |p|
      {
        if c in WalkEntry(e, p, depth) {
          GoodChild(root, p, e.node.name, depth - 1, c);
          assert p + [e.node.name] <= PathOf(c);
        } else {
          var k' :| 0 <= k' < k && es[..k][k'].Child? && p + [es[..k][k'].node.name] <= PathOf(c);
          assert es[k'] == es[..k][k'];
        }
      }
    }
  }

  lemma {:induction false} WalkOrdered(root: Tree, t: Tree, cwd: Path, name: string, depth: nat)
    requires WellFormed(root) && At(root, Resolve(cwd, name)) == [t]
    ensures Ordered(root, Walk(t, cwd, name, depth))
    decreases t, 1
  {
    if t.Opens() {
      var q := Resolve(cwd, name);
      var below := WalkListing(t.listing, q, depth + 1);
      AtWellFormed(root, q);
      ListingOrdered(root, q, t.listing, depth + 1);
      ListingGood(root, q, t.listing, depth + 1);
      OpensWalk(t, cwd, name, depth);
      var own := Callback(name, FTW_DIR, depth, cwd, Directory);
      forall c, d | c in [own] && d in below ensures Before(root, PathOf(c), PathOf(d)) {
        assert q < PathOf(d);
      }
      OrderedConcat(root, [own], below);
    }
  }

  lemma {:induction false} ListingOrdered(root: Tree, p: Path, es: seq<DirEntry>, depth: nat)
    requires OpenAt(root, p, es) && depth > 0
    ensures Ordered(root, WalkListing(es, p, depth))
    decreases es, 0
  {
    if es != [] {
      var k := |es| - 1;
      var first, rest := WalkEntry(es[k], p, depth), WalkListing(es[..k], p, depth);
      ListingOrdered(root, p, es[..k], depth);
      ListingGood(root, p, es[..k], depth);
      ListingSnoc(es, p, depth);
      if es[k].Child? {
        ListingChildren(root, p);
        assert ChildAt(root, p, At(root, p)[0].listing[k]);
        ResolveName(p, es[k].node.name);
        WalkOrdered(root, es[k].node, p, es[k].node.name, depth);
        WalkGood(root, es[k].node, p, es[k].node.name, depth);
        forall c, d | c in first && d in rest ensures Before(root, PathOf(c), PathOf(d)) {
          SiblingsOrdered(root, p, es, c, d);
        }
      }
      OrderedConcat(root, first, rest);
    }
  }

  lemma OrderedConcat(root: Tree, first: seq<Callback>, rest: seq<Callback>)
    requires Ordered(root, first) && Ordered(root, rest)
    requires forall c, d :: c in first && d in rest ==> Before(root, PathOf(c), PathOf(d))
    ensures Ordered(root, first + rest)
  {
    var calls := first + rest;
    forall a, b | 0 <= a < b < |calls| ensures Before(root, PathOf(calls[a]), PathOf(calls[b])) {
      if b < |first| {
        assert calls[a] == first[a] && calls[b] == first[b];
      } else if a >= |first| {
        assert calls[a] == rest[a - |first|] && calls[b] == rest[b - |first|];
      } else {
        assert calls[a] == first[a] && calls[b] == rest[b - |first|];
      }
    }
  }

  lemma SiblingsOrdered(root: Tree, p: Path, es: seq<DirEntry>, c: Callback, d: Callback)
    requires OpenAt(root, p, es) && es != [] && es[|es| - 1].Child?
    requires p + [es[|es| - 1].node.name] <= PathOf(c) && Under(p, es[..|es| - 1], d)
    ensures Before(root, PathOf(c), PathOf(d))
  {
    var k := |es| - 1;
    var x, y := PathOf(c), PathOf(d);
    var j :| 0 <= j < k && es[..k][j].Child? && p + [es[..k][j].node.name] <= y;
    assert es[j] == es[..k][j] == At(root, p)[0].listing[j] && es[k] == At(root, p)[0].listing[k];
    assert x[..|p|] == (p + [es[k].node.name])[..|p|] == p;
    assert y[..|p|] == (p + [es[j].node.name])[..|p|] == p;
    assert x[|p|] == (p + [es[k].node.name])[|p|] && y[|p|] == (p + [es[j].node.name])[|p|];
    assert Diverge(root, x, y, |p|, k, j);
  }

  lemma {:induction false} WalkComplete(root: Tree, t: Tree, cwd: Path, name: string, depth: nat, x: Path)
    requires WellFormed(root) && At(root, Resolve(cwd, name)) == [t]
    requires Reached(root, Resolve(cwd, name), x)
    ensures exists c :: c in Walk(t, cwd, name, depth) && PathOf(c) == x
    decreases t, 1
  {
    var q := Resolve(cwd, name);
    AtWellFormed(root, q);
    if x == q {
      assert Walk(t, cwd, name, depth)[0] in Walk(t, cwd, name, depth);
      assert PathOf(Walk(t, cwd, name, depth)[0]) == x;
    } else {
      assert x[..|q|] == q;
      assert t.Opens();
      var n := x[|q|];
      assert x[..|q| + 1] == q + [n];
      assert At(root, q + [n]) != [] by {
        if |x| == |q| + 1 {
          assert x == q + [n];
        }
      }
      assert (q + [n])[..|q|] == q;
      FindChildIn(t.listing, n);
      var k :| 0 <= k < |t.listing| && t.listing[k] == Child(At(root, q + [n])[0]);
      assert Reached(root, q + [n], x);
      ListingComplete(root, q, t.listing, depth + 1, k, x);
      OpensWalk(t, cwd, name, depth);
    }
  }

  // A call made below a listing is made below its last entry or before it.
  lemma ListingMember(es: seq<DirEntry>, p: Path, depth: nat, c: Callback)
    requires es != []
    requires c in WalkEntry(es[|es| - 1], p, depth) || c in WalkListing(es[..|es| - 1], p, depth)
    ensures c in WalkListing(es, p, depth)
  {
    ListingSnoc(es, p, depth);
  }

  lemma {:induction false} ListingComplete(root: Tree, p: Path, es: seq<DirEntry>, depth: nat, k: nat, x: Path)
    requires OpenAt(root, p, es) && k < |es| && es[k].Child? && Reached(root, p + [es[k].node.name], x)
    ensures exists c :: c in WalkListing(es, p, depth) && PathOf(c) == x
    decreases es, 0
  {
    var last := |es| - 1;
    if k == last {
      ListingChildren(root, p);
      assert ChildAt(root, p, At(root, p)[0].listing[k]);
      ResolveName(p, es[k].node.name);
      WalkComplete(root, es[k].node, p, es[k].node.name, depth, x);
      var c :| c in WalkEntry(es[k], p, depth) && PathOf(c) == x;
      ListingMember(es, p, depth, c);
    } else {
      ListingComplete(root, p, es[..last], depth, k, x);
      var c :| c in WalkListing(es[..last], p, depth) && PathOf(c) == x;
      ListingMember(es, p, depth, c);
    }
  }

  /** Siblings have different names, so "before" is never reflexive. */
  lemma BeforeIrreflexive(root: Tree, x: Path)
    requires WellFormed(root)
    ensures !Before(root, x, x)
  {
    if exists k: nat, i: nat, j: nat :: Diverge(root, x, x, k, i, j) {
      var k: nat, i: nat, j: nat :| Diverge(root, x, x, k, i, j);
      AtWellFormed(root, x[..k]);
      assert false;
    }
  }

  /** The calls of a walk from the directory at `p`: exactly the reached nodes, each one
      once, ancestors before descendants and later-listed siblings before earlier ones;
      each at its depth, with its type, and by its name from its own directory. */
  lemma WalkMeaning(root: Tree, p: Path)
    requires WellFormed(root) && At(root, p) != []
    ensures var calls := Walk(At(root, p)[0], p, Join(p), 0);
            && (forall x :: Reached(root, p, x) <==> exists c :: c in calls && PathOf(c) == x)
            && (forall a, b :: 0 <= a < b < |calls| ==> PathOf(calls[a]) != PathOf(calls[b]))
            && Ordered(root, calls)
            && (forall c :: c in calls ==> GoodCall(root, p, 0, c))
  {
    var calls := Walk(At(root, p)[0], p, Join(p), 0);
    AtWellFormed(root, p);
    ResolveJoin(p, p);
    WalkGood(root, At(root, p)[0], p, Join(p), 0);
    WalkOrdered(root, At(root, p)[0], p, Join(p), 0);
    forall x | Reached(root, p, x) ensures exists c :: c in calls && PathOf(c) == x {
      WalkComplete(root, At(root, p)[0], p, Join(p), 0, x);
    }
    forall a, b | 0 <= a < b < |calls| ensures PathOf(calls[a]) != PathOf(calls[b]) {
      BeforeIrreflexive(root, PathOf(calls[a]));
    }
  }

  /** No call is made below a directory on which lstat, opendir or chdir fails, nor below
      anything that is no directory. */
  lemma NothingBelow(root: Tree, p: Path, c: Callback, k: nat)
    requires WellFormed(root) && At(root, p) != [] && c in Walk(At(root, p)[0], p, Join(p), 0)
    requires |p| <= k < |PathOf(c)|
    ensures var above := At(root, PathOf(c)[..k]);
            && above != [] && above[0].Dir?
            && !above[0].lstatFails && !above[0].openFails && !above[0].chdirFails
  {
    WalkMeaning(root, p);
    assert GoodCall(root, p, 0, c);
  }
}
