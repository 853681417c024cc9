/** The directory walk's stack: a singly linked list whose tail is the top
    (lab_02/lib/stack.c).  Cells are heap objects; the ghost sequence `spine`
    names them from head to tail and is what makes the chain acyclic. */
module NodeStack {

  // Size of the name field of a cell; a stored name leaves room for its NUL.
  const MAX_NAME: nat := 200

  /** What a cell stores, as a value. */
  datatype Entry = Entry(name: string, depth: int)

  class Node {
    var fileName: string
    var depth: int
    var next: Node?

    // create_node
    constructor (fileName: string, depth: int)
      requires |fileName| < 200
      ensures Value() == Entry(fileName, depth) && next == null
    {
      this.fileName := fileName;
      this.depth := depth;
      this.next := null;
    }

    ghost function Value(): Entry
      reads this
    {
      Entry(fileName, depth)
    }
  }

  class Stack {
    var head: Node?
    ghost var spine: seq<Node>
    ghost var contents: seq<Entry>  // what the cells store, bottom first
    ghost var created: nat  // list cells allocated so far
    ghost var freed: nat    // list cells freed so far

    /** Every cell is linked to the next one, the last one to nothing; no cell occurs twice. */
    ghost predicate Valid()
      reads this, spine
    {
      && head == CellAt(0)
      && |contents| == |spine|
      && (forall i {:trigger CellOk(i)} :: 0 <= i < |spine| ==> CellOk(i))
      && (forall i, j :: 0 <= i < j < |spine| ==> spine[i] != spine[j])
      && created == freed + |spine|
    }

    ghost function CellAt(i: nat): Node?
      reads this
    {
      if i < |spine| then spine[i] else null
    }

    ghost predicate CellOk(i: nat)
      reads this, spine
    {
      && i < |spine| && i < |contents|
      && spine[i].next == CellAt(i + 1)
      && |spine[i].fileName| < MAX_NAME
      && contents[i] == spine[i].Value()
    }

    /** The heap objects that make up the list. */
    ghost function Cells(): set<object>
      reads this
    {
      set n | n in spine
    }

    constructor ()
      ensures Valid() && contents == [] && created == freed == 0
    {
      head := null;
      spine, contents := [], [];
      created, freed := 0, 0;
    }

    method IsEmpty() returns (empty: bool)
      requires Valid()
      ensures empty <==> contents == []
    {
      empty := head == null;
    }

    // The walk along `next` to the last cell.
    method Tail() returns (cell: Node)
      requires Valid() && head != null
      ensures spine != [] && cell == spine[|spine| - 1]
    {
      cell := head;
      ghost var k := 0;
      assert CellOk(0);
      while cell.next != null
        invariant 0 <= k < |spine| && cell == spine[k] && CellOk(k)
        decreases |spine| - k
      {
        cell := cell.next;
        k := k + 1;
        assert CellOk(k);
      }
    }

    // The same walk, to the last cell but one.
    method BeforeTail() returns (cell: Node)
      requires Valid() && |spine| > 1
      ensures cell == spine[|spine| - 2] && cell.next == spine[|spine| - 1]
    {
      cell := head;
      ghost var k := 0;
      assert CellOk(0) && CellOk(1);
      while cell.next.next != null
        invariant 0 <= k < |spine| - 1 && cell == spine[k] && CellOk(k) && CellOk(k + 1)
        decreases |spine| - k
      {
        cell := cell.next;
        k := k + 1;
        assert CellOk(k + 1);
      }
    }

    /** Appends a copy of `elem` at the tail; `elem` itself stays outside the list. */
    method Push(elem: Node)
      requires Valid() && |elem.fileName| < 200
      modifies this, Cells()
      ensures Valid()
      ensures contents == old(contents) + [old(elem.Value())]
      ensures |spine| == |old(spine)| + 1 && spine[..|old(spine)|] == old(spine)
      ensures fresh(Cells() - old(Cells()))
      ensures created == old(created) + 1 && freed == old(freed)
    {
      var tmp := new Node(elem.fileName, elem.depth);
      Link(tmp);
    }

    // The new cell becomes the tail.
    method Link(tmp: Node)
      requires Valid() && tmp !in spine && tmp.next == null && |tmp.fileName| < MAX_NAME
      modifies this, Cells()
      ensures Valid() && spine == old(spine) + [tmp] && contents == old(contents) + [tmp.Value()]
      ensures tmp.Value() == old(tmp.Value()) && created == old(created) + 1 && freed == old(freed)
    {
      ghost var n := |spine|;
      if head == null {
        assert n == 0;
        head := tmp;
      } else {
        var cell := Tail();
        assert CellOk(n - 1);
        cell.next := tmp;
      }
      spine, contents := spine + [tmp], contents + [tmp.Value()];
      created := created + 1;
      forall i | 0 <= i < |spine| ensures CellOk(i) {
        if i < n {
          assert old(CellOk(i));
          assert spine[i] == old(spine)[i];
        }
      }
    }

    /** Unlinks and frees the tail cell; the caller gets a fresh copy of it. */
    method Pop() returns (r: Node?)
      requires Valid()
      modifies this, Cells()
      ensures Valid()
      ensures r == null <==> old(contents) == []
      ensures r == null ==> contents == [] && created == old(created) && freed == old(freed)
      ensures Cells() <= old(Cells())
      ensures r != null ==> fresh(r) && r !in spine && r.next == null && |r.fileName| < MAX_NAME
      ensures r != null ==> old(contents) == contents + [r.Value()]
      ensures r != null ==> spine == old(spine)[..|old(spine)| - 1]
      ensures r != null ==> created == old(created) && freed == old(freed) + 1
    {
      if head == null {
        return null;
      }
      ghost var n := |spine| - 1;
      assert CellOk(0) && CellOk(n);
      if head.next == null {
        r := new Node(head.fileName, head.depth);
        head := null;
      } else {
        var cell := BeforeTail();
        r := new Node(cell.next.fileName, cell.next.depth);
        cell.next := null;
      }
      spine, contents := spine[..n], contents[..n];
      freed := freed + 1;
      forall i | 0 <= i < |spine| ensures CellOk(i) {
        assert old(CellOk(i));
        assert spine[i] == old(spine)[i];
      }
    }
  }
}
