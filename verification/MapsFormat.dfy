/** The text of /proc/PID/maps as proc(5) lays it out, and the hexadecimal printer whose
    output lab_04/part1/lib/output_funcs.c reads back. */
module MapsFormat {
  import opened Pagemap
  import opened Pieces

  // ---------------------------------------------------------------- hexadecimal

  predicate IsHexDigit(c: char) { '0' <= c <= '9' || 'a' <= c <= 'f' }

  function DigitValue(c: char): (d: nat)
    requires IsHexDigit(c)
    ensures d < 16
  {
    if c <= '9' then c as int - '0' as int else c as int - 'a' as int + 10
  }

  function HexDigit(d: nat): (c: char)
    requires d < 16
    ensures IsHexDigit(c) && DigitValue(c) == d
  {
    if d < 10 then ('0' as int + d) as char else ('a' as int + (d - 10)) as char
  }

  predicate IsHex(s: string) { forall i :: 0 <= i < |s| ==> IsHexDigit(s[i]) }

  function HexValue(s: string): nat
    requires IsHex(s)
  {
    if s == "" then 0 else 16 * HexValue(s[..|s| - 1]) + DigitValue(s[|s| - 1])
  }

  /** The digits of v without leading zeros. */
  function Hex(v: nat): (s: string)
    ensures IsHex(s) && s != ""
  {
    if v < 16 then [HexDigit(v)] else Hex(v / 16) + [HexDigit(v % 16)]
  }

  function Zeros(n: nat): (s: string)
    ensures |s| == n && IsHex(s)
  {
    if n == 0 then "" else ['0'] + Zeros(n - 1)
  }

  /** "%08lx" */
  function Hex8(v: nat): (s: string)
    ensures IsHex(s) && s != ""
  {
    if |Hex(v)| >= 8 then Hex(v) else Zeros(8 - |Hex(v)|) + Hex(v)
  }

  lemma {:induction false} HexRoundTrip(v: nat)
    ensures HexValue(Hex(v)) == v
  {
    if v >= 16 {
      HexRoundTrip(v / 16);
      assert Hex(v)[..|Hex(v)| - 1] == Hex(v / 16);
    }
  }

  lemma {:induction false} LeadingZero(s: string)
    requires IsHex(s)
    ensures HexValue(['0'] + s) == HexValue(s)
  {
    if s != "" {
      var t := s[..|s| - 1];
      LeadingZero(t);
      assert (['0'] + s)[..|s|] == ['0'] + t;
    }
  }

  lemma {:induction false} LeadingZeros(n: nat, s: string)
    requires IsHex(s)
    ensures HexValue(Zeros(n) + s) == HexValue(s)
  {
    if n == 0 {
      LeftNil(s);
    } else {
      LeadingZeros(n - 1, s);
      LeadingZero(Zeros(n - 1) + s);
      Assoc(['0'], Zeros(n - 1), s);
    }
  }

  /** Reading back what "%08lx" printed gives the printed value, for every value. */
  lemma Hex8RoundTrip(v: nat)
    ensures HexValue(Hex8(v)) == v
  {
    HexRoundTrip(v);
    if |Hex(v)| < 8 {
      LeadingZeros(8 - |Hex(v)|, Hex(v));
    }
  }

  /** The digits, in order. */
  lemma HexDigitIs(d: nat)
    requires d < 16
    ensures HexDigit(d) == "0123456789abcdef"[d]
  {
  }

  lemma {:induction false} HexLength(v: nat, n: nat, bound: nat)
    requires n > 0 && bound == Power16(n)
    ensures |Hex(v)| <= n <==> v < bound
    ensures v > 0 ==> Hex(v)[0] != '0'
    decreases v
  {
    if v >= 16 {
      if n > 1 {
        HexLength(v / 16, n - 1, Power16(n - 1));
      } else {
        HexLength(v / 16, 1, Power16(1));
      }
    } else {
      Power16Grows(n);
    }
  }

  function Power16(n: nat): nat {
    if n == 0 then 1 else 16 * Power16(n - 1)
  }

  lemma {:induction false} Power16Grows(n: nat)
    requires n > 0
    ensures Power16(n) >= 16
  {
    if n > 1 {
      Power16Grows(n - 1);
    }
  }

  /** "%08lx" pads to eight digits, and writes a longer number without leading zeros. */
  lemma Hex8Shape(v: nat)
    ensures v < 0x1_0000_0000 ==> |Hex8(v)| == 8
    ensures v >= 0x1_0000_0000 ==> |Hex8(v)| > 8 && Hex8(v)[0] != '0'
  {
    assert Power16(8) == 0x1_0000_0000;
    HexLength(v, 8, 0x1_0000_0000);
  }

  lemma {:induction false} HexPrefix(s: string, k: nat)
    requires IsHex(s) && k <= |s|
    ensures HexValue(s[..k]) <= HexValue(s)
  {
    if k == |s| {
      assert s[..k] == s;
    } else {
      HexPrefix(s[..|s| - 1], k);
      assert s[..|s| - 1][..k] == s[..k];
    }
  }

  // ---------------------------------------------------------------- lines

  /** One mapping: its address range; the permissions, offset, device and inode, which the
      program skips; `pad` blanks; and the name, which may be absent. */
  datatype MapLine = MapLine(low: nat, high: nat, fields: seq<string>, pad: nat, name: string)

  predicate Plain(field: string) {
    forall i :: 0 <= i < |field| ==> field[i] != ' ' && field[i] != '\n'
  }

  predicate ValidLine(l: MapLine) {
    && l.low < TWO64 && l.high < TWO64
    && |l.fields| == 4 && (forall f :: 0 <= f < 4 ==> Plain(l.fields[f]))
    && (forall i :: 0 <= i < |l.name| ==> l.name[i] != '\n' && l.name[i] != '\0')
    && (l.name != "" ==> l.name[0] != ' ')
  }

  function Blanks(n: nat): (s: string)
    ensures |s| == n && forall i :: 0 <= i < n ==> s[i] == ' '
  {
    seq(n, _ => ' ')
  }

  function RenderName(l: MapLine): string { Blanks(l.pad) + (l.name + "\n") }

  // Every field is followed by one blank, the last one included.
  function RenderFields(fields: seq<string>, rest: string): string {
    if fields == [] then rest else fields[0] + (" " + RenderFields(fields[1..], rest))
  }

  function Render(l: MapLine): string {
    Hex8(l.low) + (['-'] + (Hex8(l.high) + ([' '] + RenderFields(l.fields, RenderName(l)))))
  }

  /** A line of proc(5): the range, four fields, blanks, the name and a newline. */
  lemma RenderIs(l: MapLine, perms: string, offset: string, dev: string, inode: string)
    requires l.fields == [perms, offset, dev, inode]
    ensures Render(l)
            == Hex8(l.low) + ("-" + (Hex8(l.high) + (" " + (perms + (" " + (offset + (" " + (dev + (" " + (inode + (" "
               + (Blanks(l.pad) + (l.name + "\n")))))))))))))
  {
    FieldTexts(perms, offset, dev, inode, RenderName(l));
  }

  lemma FieldTexts(perms: string, offset: string, dev: string, inode: string, rest: string)
    ensures RenderFields([perms, offset, dev, inode], rest)
            == perms + (" " + (offset + (" " + (dev + (" " + (inode + (" " + rest)))))))
  {
    FirstField(inode, [], rest);
    FirstField(dev, [inode], rest);
    FirstField(offset, [dev, inode], rest);
    FirstField(perms, [offset, dev, inode], rest);
    assert [inode] + [] == [inode] && [dev] + [inode] == [dev, inode];
    assert [offset] + [dev, inode] == [offset, dev, inode];
    assert [perms] + [offset, dev, inode] == [perms, offset, dev, inode];
  }

  lemma FirstField(field: string, fields: seq<string>, rest: string)
    ensures RenderFields([field] + fields, rest) == field + (" " + RenderFields(fields, rest))
  {
    assert ([field] + fields)[1..] == fields;
  }

  function Rendered(ls: seq<MapLine>): (ps: seq<string>)
    ensures |ps| == |ls| && forall j :: 0 <= j < |ls| ==> ps[j] == Render(ls[j])
  {
    seq(|ls|, j requires 0 <= j < |ls| => Render(ls[j]))
  }

  /** What one read of the maps file delivers: whole lines. */
  function Chunk(ls: seq<MapLine>): string { Joined(Rendered(ls)) }

  ghost predicate ValidLines(ls: seq<MapLine>) {
    forall i :: 0 <= i < |ls| ==> ValidLine(ls[i])
  }

  // ---------------------------------------------------------------- layout

  // From one separator to the next: a blank at `to`, and neither blank nor newline between.
  ghost predicate Gap(s: string, from: nat, to: nat) {
    from < to < |s| && s[to] == ' ' && forall k :: from < k < to ==> s[k] != ' ' && s[k] != '\n'
  }

  // A field followed by a blank, standing right after a separator.
  lemma FieldPiece(s: string, from: nat, field: string, rest: string)
    requires Plain(field) && Piece(s, from + 1, field + (" " + rest))
    ensures Gap(s, from, from + 1 + |field|) && Piece(s, from + 1 + |field| + 1, rest)
  {
    var at, e := from + 1, from + 1 + |field|;
    PieceSplit(s, at, field, " " + rest);
    PieceSplit(s, e, " ", rest);
    PieceChars(s, at, field);
    PieceChars(s, e, " ");
    assert s[e] == " "[0];
    forall k | from < k < e ensures s[k] != ' ' && s[k] != '\n' {
      assert s[k] == field[k - at];
    }
  }

  // Text standing right before a separator.
  lemma UpTo(s: string, at: nat, text: string, sep: char, rest: string)
    requires Piece(s, at, text + ([sep] + rest)) && '\n' !in text && sep != '\n'
    ensures var e := at + |text|;
            && e < |s| && s[at..e] == text && s[e] == sep && Piece(s, e + 1, rest)
            && forall k :: at <= k <= e ==> s[k] != '\n'
  {
    var e := at + |text|;
    PieceSplit(s, at, text, [sep] + rest);
    PieceSplit(s, e, [sep], rest);
    PieceChars(s, at, text);
    PieceChars(s, e, [sep]);
    assert s[e] == [sep][0];
  }

  lemma BlankPiece(s: string, at: nat, blanks: string, rest: string)
    requires Piece(s, at, blanks + rest) && forall i :: 0 <= i < |blanks| ==> blanks[i] == ' '
    ensures Piece(s, at + |blanks|, rest) && forall k :: at <= k < at + |blanks| ==> s[k] == ' '
  {
    PieceSplit(s, at, blanks, rest);
    PieceChars(s, at, blanks);
  }

  lemma NameEnd(s: string, x: nat, name: string)
    requires Piece(s, x, name + "\n")
    requires '\n' !in name && (name != "" ==> name[0] != ' ')
    ensures var y := x + |name|;
            && y < |s| && s[y] == '\n' && s[x] != ' ' && s[x..y] == name
            && forall k :: x <= k < y ==> s[k] != '\n'
  {
    PieceSplit(s, x, name, "\n");
    PieceChars(s, x, name);
    PieceChars(s, x + |name|, "\n");
    assert s[x + |name|] == "\n"[0];
  }

  // Blanks, a name and the newline.
  lemma NamePiece(s: string, at: nat, pad: nat, name: string)
    requires Piece(s, at, Blanks(pad) + (name + "\n"))
    requires '\n' !in name && (name != "" ==> name[0] != ' ')
    ensures var x := at + pad; var y := x + |name|;
            && y < |s| && s[y] == '\n' && s[x] != ' ' && s[x..y] == name
            && (forall k :: at <= k < x ==> s[k] == ' ')
            && (forall k :: at <= k < y ==> s[k] != '\n')
  {
    BlankPiece(s, at, Blanks(pad), name + "\n");
    NameEnd(s, at + pad, name);
  }

  /** Positions of a line standing at `at`: the dash, the blank after the range, the blanks
      after the four fields, the start of the name and the newline. */
  ghost function DashAt(l: MapLine, at: nat): nat { at + |Hex8(l.low)| }
  ghost function RangeEnd(l: MapLine, at: nat): nat { DashAt(l, at) + 1 + |Hex8(l.high)| }
  ghost function FieldEnd(l: MapLine, at: nat, f: nat): nat
    requires f <= |l.fields|
  {
    After(RangeEnd(l, at), l.fields, f)
  }
  ghost function NameAt(l: MapLine, at: nat): nat { FieldEnd(l, at, |l.fields|) + 1 + l.pad }
  ghost function NewlineAt(l: MapLine, at: nat): nat { NameAt(l, at) + |l.name| }

  // The separator after the first f fields, when `from` is the one before them.
  ghost function After(from: nat, fields: seq<string>, f: nat): nat
    requires f <= |fields|
    decreases f
  {
    if f == 0 then from else After(from + 1 + |fields[0]|, fields[1..], f - 1)
  }

  lemma {:induction false} AfterNext(from: nat, fields: seq<string>, f: nat)
    requires f < |fields|
    ensures After(from, fields, f + 1) == After(from, fields, f) + 1 + |fields[f]|
    decreases f
  {
    if f > 0 {
      AfterNext(from + 1 + |fields[0]|, fields[1..], f - 1);
    }
  }

  /** Rendered fields lie between separators, in order, and the rest follows the last. */
  lemma {:induction false} FieldLayout(s: string, from: nat, fields: seq<string>, rest: string)
    requires forall f :: 0 <= f < |fields| ==> Plain(fields[f])
    requires Piece(s, from + 1, RenderFields(fields, rest))
    ensures forall f :: 0 <= f < |fields| ==> Gap(s, After(from, fields, f), After(from, fields, f + 1))
    ensures Piece(s, After(from, fields, |fields|) + 1, rest)
    decreases |fields|
  {
    if fields != [] {
      FieldPiece(s, from, fields[0], RenderFields(fields[1..], rest));
      FieldLayout(s, from + 1 + |fields[0]|, fields[1..], rest);
      forall f | 0 <= f < |fields| ensures Gap(s, After(from, fields, f), After(from, fields, f + 1)) {
        if f > 0 {
          var next := from + 1 + |fields[0]|;
          assert Gap(s, After(next, fields[1..], f - 1), After(next, fields[1..], f - 1 + 1));
        }
      }
    }
  }

  lemma {:induction false} FieldsLength(from: nat, fields: seq<string>, rest: string)
    ensures After(from, fields, |fields|) + |rest| == from + |RenderFields(fields, rest)|
    decreases |fields|
  {
    if fields != [] {
      FieldsLength(from + 1 + |fields[0]|, fields[1..], rest);
    }
  }

  /** Everything a scan of the line meets, in terms of positions and characters only. */
  ghost predicate LineFacts(s: string, l: MapLine, at: nat) {
    && |l.fields| == 4
    && RangeFacts(s, l, at, DashAt(l, at), RangeEnd(l, at))
    && (forall f :: 0 <= f < 4 ==> FieldGap(s, l, at, f))
    && NameFacts(s, l, FieldEnd(l, at, 4), NameAt(l, at), NewlineAt(l, at))
  }

  ghost predicate RangeFacts(s: string, l: MapLine, at: nat, dash: nat, end: nat) {
    && at < dash < end < |s| && s[dash] == '-' && s[end] == ' '
    && IsHex(s[at..dash]) && HexValue(s[at..dash]) == l.low < TWO64
    && IsHex(s[dash + 1..end]) && HexValue(s[dash + 1..end]) == l.high < TWO64
    && forall k :: at <= k <= end ==> s[k] != '\n'
  }

  ghost predicate FieldGap(s: string, l: MapLine, at: nat, f: nat)
    requires f < |l.fields|
  {
    Gap(s, FieldEnd(l, at, f), FieldEnd(l, at, f + 1))
  }

  ghost predicate NameFacts(s: string, l: MapLine, last: nat, x: nat, y: nat) {
    && last < x <= y < |s| && s[y] == '\n' && s[x] != ' ' && s[x..y] == l.name && '\0' !in l.name
    && (forall k :: last <= k < x ==> s[k] == ' ')
    && (forall k :: last <= k < y ==> s[k] != '\n')
  }

  // A printed number standing right before a separator.
  lemma NumberLayout(s: string, at: nat, v: nat, sep: char, rest: string)
    requires Piece(s, at, Hex8(v) + ([sep] + rest)) && sep != '\n'
    ensures var e := at + |Hex8(v)|;
            && at < e < |s| && s[e] == sep && Piece(s, e + 1, rest)
            && IsHex(s[at..e]) && HexValue(s[at..e]) == v
            && forall k :: at <= k <= e ==> s[k] != '\n'
  {
    UpTo(s, at, Hex8(v), sep, rest);
    Hex8RoundTrip(v);
  }

  lemma RangeLayout(s: string, l: MapLine, at: nat)
    requires ValidLine(l) && Piece(s, at, Render(l))
    ensures RangeFacts(s, l, at, DashAt(l, at), RangeEnd(l, at))
    ensures Piece(s, RangeEnd(l, at) + 1, RenderFields(l.fields, RenderName(l)))
  {
    RangeAt(s, l, at, DashAt(l, at), RangeEnd(l, at), RenderFields(l.fields, RenderName(l)));
  }

  lemma RangeAt(s: string, l: MapLine, at: nat, dash: nat, end: nat, rest: string)
    requires l.low < TWO64 && l.high < TWO64
    requires Piece(s, at, Hex8(l.low) + (['-'] + (Hex8(l.high) + ([' '] + rest))))
    requires dash == at + |Hex8(l.low)| && end == dash + 1 + |Hex8(l.high)|
    ensures RangeFacts(s, l, at, dash, end) && Piece(s, end + 1, rest)
  {
    NumberLayout(s, at, l.low, '-', Hex8(l.high) + ([' '] + rest));
    NumberLayout(s, dash + 1, l.high, ' ', rest);
  }

  lemma NameLayout(s: string, l: MapLine, last: nat)
    requires ValidLine(l) && Piece(s, last + 1, RenderName(l)) && last < |s| && s[last] == ' '
    ensures NameFacts(s, l, last, last + 1 + l.pad, last + 1 + l.pad + |l.name|)
  {
    NamePiece(s, last + 1, l.pad, l.name);
  }

  lemma FieldGaps(s: string, l: MapLine, at: nat)
    requires ValidLine(l) && Piece(s, RangeEnd(l, at) + 1, RenderFields(l.fields, RenderName(l)))
    ensures forall f :: 0 <= f < 4 ==> FieldGap(s, l, at, f)
    ensures Piece(s, FieldEnd(l, at, 4) + 1, RenderName(l))
  {
    FieldLayout(s, RangeEnd(l, at), l.fields, RenderName(l));
    forall f | 0 <= f < 4 ensures FieldGap(s, l, at, f) {
    }
  }

  lemma NameGaps(s: string, l: MapLine, at: nat)
    requires ValidLine(l) && Piece(s, RangeEnd(l, at) + 1, RenderFields(l.fields, RenderName(l)))
    ensures NameFacts(s, l, FieldEnd(l, at, 4), NameAt(l, at), NewlineAt(l, at))
  {
    FieldGaps(s, l, at);
    assert FieldGap(s, l, at, 3);
    NameLayout(s, l, FieldEnd(l, at, 4));
  }

  lemma AfterRange(s: string, l: MapLine, at: nat)
    requires ValidLine(l) && Piece(s, RangeEnd(l, at) + 1, RenderFields(l.fields, RenderName(l)))
    requires RangeFacts(s, l, at, DashAt(l, at), RangeEnd(l, at))
    ensures LineFacts(s, l, at)
  {
    FieldGaps(s, l, at);
    NameGaps(s, l, at);
  }

  lemma LayoutFacts(s: string, l: MapLine, at: nat)
    requires ValidLine(l) && Piece(s, at, Render(l))
    ensures LineFacts(s, l, at)
  {
    RangeLayout(s, l, at);
    AfterRange(s, l, at);
  }

  lemma LineLength(l: MapLine, at: nat)
    ensures NewlineAt(l, at) == at + |Render(l)| - 1
  {
    FieldsLength(RangeEnd(l, at), l.fields, RenderName(l));
  }

  /** A line has exactly one newline, its last character. */
  lemma LineLayout(s: string, l: MapLine, at: nat)
    requires LineFacts(s, l, at)
    ensures at <= RangeEnd(l, at) < NewlineAt(l, at) < |s| && s[NewlineAt(l, at)] == '\n'
    ensures forall k :: at <= k < NewlineAt(l, at) ==> s[k] != '\n'
  {
    assert FieldGap(s, l, at, 0) && FieldGap(s, l, at, 1) && FieldGap(s, l, at, 2) && FieldGap(s, l, at, 3);
    forall k | at <= k < NewlineAt(l, at) ensures s[k] != '\n' {
      if RangeEnd(l, at) < k <= FieldEnd(l, at, 4) {
        NoNewlineInFields(s, l, at, k);
      }
    }
  }

  lemma NoNewlineInFields(s: string, l: MapLine, at: nat, k: nat)
    requires |l.fields| == 4
    requires FieldGap(s, l, at, 0) && FieldGap(s, l, at, 1) && FieldGap(s, l, at, 2) && FieldGap(s, l, at, 3)
    requires RangeEnd(l, at) < k <= FieldEnd(l, at, 4)
    ensures k < |s| && s[k] != '\n'
  {
    var f := if k <= FieldEnd(l, at, 1) then 0
             else if k <= FieldEnd(l, at, 2) then 1
             else if k <= FieldEnd(l, at, 3) then 2 else 3;
    assert FieldGap(s, l, at, f) && FieldEnd(l, at, f) < k <= FieldEnd(l, at, f + 1);
  }
}
