/** An entry of the system's open-file table, and a stdio stream on top of it
    (section 7.21.5.6 of ISO C11; XSH section 2.5.1 of POSIX.1-2017). */
module OpenFiles {

  function Min(a: nat, b: nat): nat { if a < b then a else b }

  /** The bytes of S at positions a to b, as far as the file goes. */
  function Part(S: string, a: nat, b: nat): string
    decreases b - a
  {
    if a >= b || a >= |S| then "" else [S[a]] + Part(S, a + 1, b)
  }

  lemma {:induction false} PartIs(S: string, a: nat, b: nat)
    requires a <= b <= |S|
    ensures Part(S, a, b) == S[a..b]
    decreases b - a
  {
    if a < b {
      PartIs(S, a + 1, b);
    }
  }

  /** An open file: its content does not change, its offset is shared by everyone who uses it. */
  class OpenFile {
    const content: string
    var offset: nat

    ghost predicate Valid()
      reads this
    {
      offset <= |content|
    }

    constructor (content: string)
      ensures Valid() && this.content == content && offset == 0
    {
      this.content := content;
      offset := 0;
    }

    /** read: the next n bytes of a regular file, or what is left of it. */
    method Read(n: nat) returns (data: string)
      requires Valid()
      modifies this`offset
      ensures Valid() && offset == Min(old(offset) + n, |content|) && data == Part(content, old(offset), offset)
      ensures offset == (if old(offset) + n < |content| then old(offset) + n else |content|)
      ensures data == content[old(offset)..offset]
    {
      var stop := Min(offset + n, |content|);
      data := content[offset..stop];
      PartIs(content, offset, stop);
      offset := stop;
    }
  }

  /** A fully buffered input stream: the bytes fetched from the file and not yet consumed. */
  class Stream {
    const file: OpenFile
    const size: nat
    var unread: string

    // fdopen and setvbuf
    constructor (file: OpenFile, size: nat)
      ensures unread == "" && this.file == file && this.size == size
    {
      this.file := file;
      this.size := size;
      unread := "";
    }

    /** fscanf("%c") on the stream. */
    method ScanChar() returns (rc: int, c: char)
      requires file.Valid()
      modifies this`unread, file`offset
      ensures file.Valid()
      ensures Scanned(rc, c, unread, file.offset) == Scan(old(unread), file.content, old(file.offset), size)
    {
      c := '\0';
      if unread == "" {
        unread := file.Read(size);
        if unread == "" {
          return -1, c;
        }
      }
      c := unread[0];
      unread := unread[1..];
      rc := 1;
    }
  }

  datatype Scanned = Scanned(rc: int, c: char, unread: string, offset: nat)

  /** The next byte of a stream, on values: an empty buffer is refilled at the shared offset
      first, and a refill that finds the end of the file is an input failure. */
  function Scan(unread: string, content: string, offset: nat, size: nat): Scanned
    requires offset <= |content|
  {
    if unread != "" then Scanned(1, unread[0], unread[1..], offset)
    else
      var stop := Min(offset + size, |content|);
      if stop == offset then Scanned(-1, '\0', "", offset)
      else Scanned(1, content[offset], Part(content, offset + 1, stop), stop)
  }

  /** A conversion takes the next byte fetched, or fetches up to `size` bytes at the shared offset
      and takes the first; at the end of the file it is an input failure. */
  lemma ScanIs(unread: string, content: string, offset: nat, size: nat)
    requires offset <= |content| && size > 0
    ensures var s := Scan(unread, content, offset, size);
            if unread != "" then s == Scanned(1, unread[0], unread[1..], offset)
            else if offset == |content| then s.rc == -1 && s.unread == "" && s.offset == offset
            else
              && s.rc == 1 && s.c == content[offset]
              && s.offset == (if offset + size < |content| then offset + size else |content|)
              && s.unread == content[offset + 1..s.offset]
  {
    if unread == "" && offset < |content| {
      PartIs(content, offset + 1, Min(offset + size, |content|));
    }
  }
}
