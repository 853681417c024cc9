/** Strings standing inside a buffer, and buffers made of consecutive pieces. */
module Pieces {

  lemma TakeNext<T>(s: seq<T>, j: nat)
    requires j < |s|
    ensures s[..j + 1] == s[..j] + [s[j]]
  {
  }

  lemma TakeAll<T>(s: seq<T>)
    ensures s[..|s|] == s && s[..0] == []
  {
  }

  lemma SplitLast<T>(s: seq<T>)
    requires s != []
    ensures s == s[..|s| - 1] + [s[|s| - 1]]
  {
  }

  lemma LeftNil<T>(s: seq<T>)
    ensures [] + s == s
  {
  }

  lemma RightNil<T>(s: seq<T>)
    ensures s + [] == s
  {
  }

  lemma Assoc<T>(a: seq<T>, b: seq<T>, c: seq<T>)
    ensures a + b + c == a + (b + c)
  {
  }

  /** `piece` stands in `s` at position `at`. */
  ghost predicate Piece(s: string, at: nat, piece: string) {
    at + |piece| <= |s| && s[at..at + |piece|] == piece
  }

  lemma PieceSplit(s: string, at: nat, a: string, b: string)
    requires Piece(s, at, a + b)
    ensures Piece(s, at, a) && Piece(s, at + |a|, b)
  {
    var whole := s[at..at + |a + b|];
    assert whole[..|a|] == a && whole[|a|..] == b;
    assert s[at..at + |a|] == whole[..|a|];
    assert s[at + |a|..at + |a| + |b|] == whole[|a|..];
  }

  lemma PieceTail(s: string, at: nat, r: string, skip: nat)
    requires Piece(s, at, r) && skip <= |r|
    ensures Piece(s, at + skip, r[skip..])
  {
    assert r == r[..skip] + r[skip..];
    PieceSplit(s, at, r[..skip], r[skip..]);
  }

  lemma PieceChars(s: string, at: nat, piece: string)
    requires Piece(s, at, piece)
    ensures forall k :: at <= k < at + |piece| ==> s[k] == piece[k - at]
  {
    forall k | at <= k < at + |piece| ensures s[k] == piece[k - at] {
      assert s[at..at + |piece|][k - at] == s[k];
    }
  }

  lemma PieceInPrefix(s: string, t: string, at: nat, piece: string)
    requires t <= s && Piece(t, at, piece)
    ensures Piece(s, at, piece)
  {
    assert s[at..at + |piece|] == t[at..at + |piece|];
  }

  /** The pieces one after the other, taken from the front. */
  function Joined(ps: seq<string>): string {
    if ps == [] then ""
    else if |ps| == 1 then ps[0]
    else ps[0] + Joined(ps[1..])
  }

  lemma JoinedSplit(s: string, at: nat, ps: seq<string>) returns (next: nat)
    requires ps != [] && Piece(s, at, Joined(ps))
    ensures Piece(s, at, ps[0]) && next == at + |ps[0]|
    ensures Piece(s, next, Joined(ps[1..])) && at + |Joined(ps)| == next + |Joined(ps[1..])|
  {
    if |ps| > 1 {
      PieceSplit(s, at, ps[0], Joined(ps[1..]));
    }
    next := at + |ps[0]|;
  }

  function Concat(ps: seq<string>): string {
    if ps == [] then "" else Concat(ps[..|ps| - 1]) + ps[|ps| - 1]
  }

  /** Where piece j of a concatenation starts. */
  function Offset(ps: seq<string>, j: nat): nat
    requires j <= |ps|
  {
    |Concat(ps[..j])|
  }

  lemma ConcatSnoc(ps: seq<string>, p: string)
    ensures Concat(ps + [p]) == Concat(ps) + p
  {
    assert (ps + [p])[..|ps|] == ps;
  }

  lemma {:induction false} ConcatAppend(ps: seq<string>, qs: seq<string>)
    ensures Concat(ps + qs) == Concat(ps) + Concat(qs)
  {
    if qs == [] {
      assert ps + qs == ps;
    } else {
      var init, q := qs[..|qs| - 1], qs[|qs| - 1];
      ConcatAppend(ps, init);
      assert qs == init + [q] && ps + qs == (ps + init) + [q];
      ConcatSnoc(ps + init, q);
      ConcatSnoc(init, q);
    }
  }

  /** Piece j stands right after the pieces before it. */
  lemma ConcatPiece(ps: seq<string>, j: nat)
    requires j < |ps|
    ensures Piece(Concat(ps), Offset(ps, j), ps[j])
    ensures Offset(ps, j + 1) == Offset(ps, j) + |ps[j]| <= |Concat(ps)|
  {
    assert ps[..j + 1] == ps[..j] + [ps[j]];
    ConcatSnoc(ps[..j], ps[j]);
    assert ps == ps[..j + 1] + ps[j + 1..];
    ConcatAppend(ps[..j + 1], ps[j + 1..]);
    var c := Concat(ps[..j + 1]);
    assert c == Concat(ps[..j]) + ps[j];
    assert Piece(c, |Concat(ps[..j])|, ps[j]);
    PieceInPrefix(Concat(ps), c, Offset(ps, j), ps[j]);
  }

  lemma OffsetEnds(ps: seq<string>)
    ensures Offset(ps, 0) == 0 && Offset(ps, |ps|) == |Concat(ps)|
  {
    assert ps[..|ps|] == ps;
  }

  /** The C string that starts at `at`: everything up to the first NUL. */
  function CString(s: string, at: nat): (r: string)
    requires at <= |s|
    ensures at + |r| <= |s| && s[at..at + |r|] == r
    ensures '\0' !in r
    ensures at + |r| < |s| ==> s[at + |r|] == '\0'
    decreases |s| - at
  {
    if at == |s| || s[at] == '\0' then ""
    else
      var tail := CString(s, at + 1);
      assert s[at..at + |tail| + 1] == [s[at]] + s[at + 1..at + 1 + |tail|];
      [s[at]] + tail
  }

  lemma CStringIs(s: string, at: nat, r: string)
    requires at + |r| < |s| && s[at..at + |r|] == r && '\0' !in r && s[at + |r|] == '\0'
    ensures CString(s, at) == r
  {
    var c := CString(s, at);
    assert |c| == |r|;
  }

  /** A C string from some of its characters on. */
  lemma CStringTail(s: string, at: nat, r: string, skip: nat)
    requires at + |r| < |s| && CString(s, at) == r && skip <= |r|
    ensures CString(s, at + skip) == r[skip..]
  {
    PieceTail(s, at, r, skip);
    CStringIs(s, at + skip, r[skip..]);
  }
}
