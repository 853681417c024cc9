/** The pagemap half of lab_04/part1/lib/output_funcs.c: assembling and decoding one entry
    over short reads, and the physical address built from it. */
module Pagemap {
  import opened Arithmetic

  const TWO64: nat := 0x1_0000_0000_0000_0000

  // What sysconf(_SC_PAGE_SIZE) may report: a divisor of the address space, 4096 at least.
  predicate PageSize(page: nat) {
    page >= 4096 && TWO64 % page == 0
  }

  datatype Option<+T> = None | Some(value: T)

  datatype PagemapEntry = PagemapEntry(pfn: bv64, softDirty: bv64, filePage: bv64, swapped: bv64, present: bv64)

  /** The eight bytes of a little-endian 64-bit word. */
  function Word(b: seq<bv8>): bv64
    requires |b| == 8
  {
    (b[0] as bv64) | ((b[1] as bv64) << 8) | ((b[2] as bv64) << 16) | ((b[3] as bv64) << 24)
    | ((b[4] as bv64) << 32) | ((b[5] as bv64) << 40) | ((b[6] as bv64) << 48) | ((b[7] as bv64) << 56)
  }

  function Decode(data: bv64): PagemapEntry {
    PagemapEntry(data & (((1 as bv64) << 55) - 1),
                 (data >> 55) & 1, (data >> 61) & 1, (data >> 62) & 1, (data >> 63) & 1)
  }

  /** Each field has its width, and put back at its place (0, 55, 61, 62 and 63) restores its bits:
      bits 0-55 and 61-63 survive decoding, and only bits 56-60 are dropped. */
  lemma RepackDecode(data: bv64)
    ensures var e := Decode(data);
            && e.pfn < 0x80_0000_0000_0000 && e.softDirty <= 1 && e.filePage <= 1 && e.swapped <= 1 && e.present <= 1
            && e.pfn | (e.softDirty << 55) | (e.filePage << 61) | (e.swapped << 62) | (e.present << 63)
               == data & 0xE0FF_FFFF_FFFF_FFFF
  {
  }

  /** The word is little-endian: each byte read stands at its own place in it. */
  lemma WordBytes(b: seq<bv8>)
    requires |b| == 8
    ensures var w := Word(b);
            && (w & 0xFF) as bv8 == b[0] && ((w >> 8) & 0xFF) as bv8 == b[1]
            && ((w >> 16) & 0xFF) as bv8 == b[2] && ((w >> 24) & 0xFF) as bv8 == b[3]
            && ((w >> 32) & 0xFF) as bv8 == b[4] && ((w >> 40) & 0xFF) as bv8 == b[5]
            && ((w >> 48) & 0xFF) as bv8 == b[6] && ((w >> 56) & 0xFF) as bv8 == b[7]
  {
  }

  /** The pagemap file: its bytes, and the offsets at which a read fails. */
  datatype PagemapFile = PagemapFile(bytes: seq<bv8>, bad: set<nat>)

  /** The bytes from `from` to `to` exist, and none of them fails. */
  predicate Readable(file: PagemapFile, from: nat, to: nat) {
    to <= |file.bytes| && forall k: nat :: from <= k < to ==> k !in file.bad
  }

  /** pread: an error, end of file, or any positive number of the bytes asked for, short of
      the next one that fails. */
  method Pread(file: PagemapFile, n: nat, off: nat) returns (ret: int, got: seq<bv8>)
    requires n > 0
    ensures ret < 0 <==> off in file.bad
    ensures ret == 0 <==> off !in file.bad && |file.bytes| <= off
    ensures ret > 0 ==> ret <= n && Readable(file, off, off + ret) && got == file.bytes[off..off + ret]
    ensures ret >= -1
  {
    if off in file.bad {
      ret, got := -1, [];
    } else if |file.bytes| <= off {
      ret, got := 0, [];
    } else {
      assert Readable(file, off, off + 1);
      ret :| 1 <= ret <= n && off + ret <= |file.bytes| && Readable(file, off, off + ret);
      got := file.bytes[off..off + ret];
    }
  }

  /** The entry of `vaddr`'s page, when all its bytes can be read. */
  ghost function EntryAt(file: PagemapFile, vaddr: nat, page: nat): Option<PagemapEntry>
    requires page > 0
  {
    var off := vaddr / page * 8;
    if Readable(file, off, off + 8) then Some(Decode(Word(file.bytes[off..off + 8]))) else None
  }

  /** A file of whole words. */
  function Bytes(words: seq<seq<bv8>>): seq<bv8> {
    if words == [] then [] else if |words| == 1 then words[0] else words[0] + Bytes(words[1..])
  }

  ghost predicate EightEach(words: seq<seq<bv8>>) {
    forall i :: 0 <= i < |words| ==> |words[i]| == 8
  }

  /** Word number i is bytes 8i to 8i + 8. */
  lemma {:induction false} WordAt(words: seq<seq<bv8>>, i: nat)
    requires EightEach(words)
    ensures |Bytes(words)| == 8 * |words|
    ensures i < |words| ==> Bytes(words)[8 * i..8 * i + 8] == words[i]
    decreases |words|
  {
    if |words| > 1 {
      WordAt(words[1..], if i == 0 then 0 else i - 1);
      if 0 < i < |words| {
        LaterWord(words[0], Bytes(words[1..]), 8 * (i - 1));
      }
    }
  }

  lemma LaterWord(first: seq<bv8>, rest: seq<bv8>, at: nat)
    requires |first| == 8 && at + 8 <= |rest|
    ensures (first + rest)[8 + at..8 + at + 8] == rest[at..at + 8]
  {
  }

  /** The entry of an address, in a file of words that can all be read, is the word whose number
      is the address's page. */
  lemma EntryIsWord(words: seq<seq<bv8>>, bytes: seq<bv8>, vaddr: nat, page: nat)
    requires page > 0 && EightEach(words) && bytes == Bytes(words)
    ensures EntryAt(PagemapFile(bytes, {}), vaddr, page)
            == if vaddr / page < |words| then Some(Decode(Word(words[vaddr / page]))) else None
  {
    WordAt(words, vaddr / page);
    EntryOfPage(PagemapFile(bytes, {}), vaddr, page, vaddr / page);
  }

  // The entry of page i is at offset 8i.
  lemma EntryOfPage(file: PagemapFile, vaddr: nat, page: nat, i: nat)
    requires page > 0 && i == vaddr / page
    ensures EntryAt(file, vaddr, page)
            == if Readable(file, 8 * i, 8 * i + 8) then Some(Decode(Word(file.bytes[8 * i..8 * i + 8]))) else None
  {
  }

  /** pagemap_get_entry: whatever the pattern of short reads it ends, and succeeds exactly
      when the eight bytes of the entry can be read; it has then decoded those eight. */
  method PagemapGetEntry(file: PagemapFile, vaddr: nat, page: nat) returns (rc: int, entry: PagemapEntry)
    requires PageSize(page) && vaddr < TWO64
    ensures rc == if EntryAt(file, vaddr, page).Some? then 0 else 1
    ensures rc == 0 ==> EntryAt(file, vaddr, page) == Some(entry)
    ensures var off := 8 * (vaddr / page);
            && (rc == 0 <==> off + 8 <= |file.bytes| && forall k: nat :: off <= k < off + 8 ==> k !in file.bad)
            && (rc == 0 ==> entry == Decode(Word(file.bytes[off..off + 8])))
  {
    EntryOfPage(file, vaddr, page, vaddr / page);
    entry := PagemapEntry(0, 0, 0, 0, 0);
    var ok, data := ReadWord(file, vaddr / page * 8);
    if !ok {
      return 1, entry;
    }
    entry := Decode(Word(data));
    return 0, entry;
  }

  /** On a file of n words that can all be read: success exactly for the first n pages, and the
      entry is decoded from the word with the page's number. */
  method EntryOfWords(words: seq<seq<bv8>>, vaddr: nat, page: nat) returns (rc: int, entry: PagemapEntry)
    requires PageSize(page) && vaddr < TWO64 && EightEach(words)
    ensures rc == 0 <==> vaddr / page < |words|
    ensures rc == 0 ==> entry == Decode(Word(words[vaddr / page]))
  {
    var bytes := Bytes(words);
    EntryIsWord(words, bytes, vaddr, page);
    rc, entry := PagemapGetEntry(PagemapFile(bytes, {}), vaddr, page);
  }

  // The short-read loop.
  method ReadWord(file: PagemapFile, off: nat) returns (ok: bool, word: seq<bv8>)
    ensures ok <==> Readable(file, off, off + 8)
    ensures ok ==> word == file.bytes[off..off + 8]
  {
    var data := new bv8[8];
    var nread := 0;
    while nread < 8
      invariant 0 <= nread <= 8 && (nread > 0 ==> Readable(file, off, off + nread))
      invariant forall k :: 0 <= k < nread ==> data[k] == file.bytes[off + k]
      decreases 8 - nread
    {
      var ret, got := Pread(file, 8 - nread, off + nread);
      if ret > 0 {
        assert forall k :: 0 <= k < ret ==> got[k] == file.bytes[off + nread + k];
        forall k | nread <= k < nread + ret {
          data[k] := got[k - nread];
        }
      }
      nread := (nread + ret) % TWO64;
      if ret <= 0 {
        return false, [];
      }
    }
    return true, data[..];
  }

  /** virt_to_phys_user's last step, in uintptr_t arithmetic. */
  function PhysicalAddress(pfn: nat, vaddr: nat, page: nat): nat
    requires page > 0
  {
    (pfn * page + vaddr % page) % TWO64
  }

  /** virt_to_phys_user; `file` is absent when the pagemap cannot be opened. */
  method VirtToPhysUser(file: Option<PagemapFile>, vaddr: nat, page: nat) returns (rc: int, paddr: nat)
    requires PageSize(page) && vaddr < TWO64
    ensures rc == if file.Some? && EntryAt(file.value, vaddr, page).Some? then 0 else 1
    ensures rc == 0 ==> paddr == PhysicalAddress(EntryAt(file.value, vaddr, page).value.pfn as nat, vaddr, page)
    ensures rc == 0 ==> paddr % page == vaddr % page
  {
    paddr := 0;
    if file.None? {
      return 1, paddr;
    }
    var failed, entry := PagemapGetEntry(file.value, vaddr, page);
    if failed != 0 {
      return 1, paddr;
    }
    paddr := PhysicalAddress(entry.pfn as nat, vaddr, page);
    PhysicalAddressMeaning(entry.pfn as nat, vaddr, page);
    return 0, paddr;
  }

  /** The in-page offset always survives, since pages divide the address space; the frame
      number survives up to the number of frames, so exactly when it is below that. */
  lemma PhysicalAddressMeaning(pfn: nat, vaddr: nat, page: nat)
    requires PageSize(page)
    ensures PhysicalAddress(pfn, vaddr, page) % page == vaddr % page
    ensures PhysicalAddress(pfn, vaddr, page) / page == pfn % (0x1_0000_0000_0000_0000 / page)
    ensures PhysicalAddress(pfn, vaddr, page) / page == pfn <==> pfn < 0x1_0000_0000_0000_0000 / page
  {
    var r, frames := vaddr % page, TWO64 / page;
    var n := pfn * page + r;
    var wraps, paddr := n / TWO64, n % TWO64;
    assert n == wraps * TWO64 + paddr && TWO64 == frames * page;
    var frame := pfn - wraps * frames;
    WrappedFrame(pfn, page, wraps, frames);
    assert paddr == frame * page + r;
    FrameRange(frame, page, r, frames);
    DivideSum(frame, page, r);
    WholeFrames(wraps, frames);
    DivideSum(wraps, frames, frame);
  }

  lemma WrappedFrame(pfn: nat, page: nat, wraps: nat, frames: nat)
    ensures (pfn - wraps * frames) * page == pfn * page - wraps * (frames * page)
  {
    assert wraps * (frames * page) == (wraps * frames) * page;
    assert (pfn - wraps * frames) * page == pfn * page - (wraps * frames) * page;
  }

  lemma WholeFrames(wraps: nat, frames: nat)
    ensures wraps > 0 ==> wraps * frames >= frames
    ensures wraps == 0 ==> wraps * frames == 0
  {
  }
}
