/** ACPI root tables as the firmware lays them out in memory, byte by byte, and what the kernel's discovery
    makes of them (ACPI specification, sections 5.2.7 and 5.2.8). */
module Images {
  import opened Bits
  import opened Hardware
  import opened Tables
  import opened Machine
  import opened Rsdp
  import opened Rewriting
  import opened Acpi
  import opened Headers
  import opened Startup
  import K = Kernel
  import Q = Requests

  // ----- bytes in physical memory -----

  /** The byte at a physical address. */
  function PhysByte(m: Memory, a: Word): Byte {
    var w := m[a / 0x1000][a % 0x1000 / 4];
    if a % 4 == 0 then w % 0x100
    else if a % 4 == 1 then w / 0x100 % 0x100
    else if a % 4 == 2 then w / 0x1_0000 % 0x100
    else w / 0x100_0000
  }

  lemma PhysByteIs(m: Memory, a: Word, fr: Frame, off: nat)
    requires fr == m[a / 0x1000] && off == a % 0x1000
    ensures PhysByte(m, a) == ByteAt(fr, off)
  {
    OffsetBits(a, off);
    ByteIsDigit(fr, off, fr[off / 4], off % 4);
  }

  lemma OffsetBits(a: Word, off: nat)
    requires off == a % 0x1000
    ensures off < 0x1000 && off % 4 == a % 4
  {
    BitsOf(a, a / 0x1000, off, off / 4, off % 4);
  }

  lemma BitsOf(a: nat, page: nat, off: nat, word: nat, s: nat)
    requires a == 0x1000 * page + off && off == 4 * word + s && s < 4
    ensures a % 4 == s
  {
    DivModUnique(a, 4, 0x400 * page + word, s);
  }

  lemma ByteIsDigit(fr: Frame, off: nat, w: Word, s: nat)
    requires off < 0x1000 && w == fr[off / 4] && s == off % 4
    ensures ByteAt(fr, off) == if s == 0 then w % 0x100 else if s == 1 then w / 0x100 % 0x100
                               else if s == 2 then w / 0x1_0000 % 0x100 else w / 0x100_0000
  {
  }

  /** The bytes lie at physical address a, within a page. */
  ghost predicate Lies(m: Memory, a: Word, bytes: seq<Byte>) {
    && a % 0x1000 + |bytes| <= 0x1000
    && forall k: nat | k < |bytes| :: a + k < 0x1_0000_0000 && PhysByte(m, a + k) == bytes[k]
  }

  /** Four bytes as a number, lowest first. */
  function Number(b0: Byte, b1: Byte, b2: Byte, b3: Byte): Word {
    b0 + 0x100 * b1 + 0x1_0000 * b2 + 0x100_0000 * b3
  }

  /** The 32-bit number at physical address a. */
  function PhysWord(m: Memory, a: Word): Word
    requires a % 0x1000 <= 0xFFC
  {
    SamePage(a, 3);
    Number(PhysByte(m, a), PhysByte(m, a + 1), PhysByte(m, a + 2), PhysByte(m, a + 3))
  }

  lemma PhysWordIs(m: Memory, a: Word, fr: Frame, off: nat)
    requires off == a % 0x1000 <= 0xFFC && fr == m[FrameOf(a)]
    ensures PhysWord(m, a) == WordAt(fr, off)
  {
    var b0, b1, b2, b3 := FourNear(m, a, fr, off);
    FourBytes(fr, off, b0, b1, b2, b3);
  }

  lemma FourNear(m: Memory, a: Word, fr: Frame, off: nat) returns (b0: Byte, b1: Byte, b2: Byte, b3: Byte)
    requires off == a % 0x1000 <= 0xFFC && fr == m[FrameOf(a)]
    ensures PhysWord(m, a) == Number(b0, b1, b2, b3)
    ensures ByteAt(fr, off) == b0 && ByteAt(fr, off + 1) == b1 && ByteAt(fr, off + 2) == b2 && ByteAt(fr, off + 3) == b3
  {
    b0 := NearByteIs(m, a, fr, off, 0, off);
    b1 := NearByteIs(m, a, fr, off, 1, off + 1);
    b2 := NearByteIs(m, a, fr, off, 2, off + 2);
    b3 := NearByteIs(m, a, fr, off, 3, off + 3);
  }

  lemma NearByteIs(m: Memory, a: Word, fr: Frame, off: nat, k: nat, at: nat) returns (b: Byte)
    requires off == a % 0x1000 && at == off + k < 0x1000 && fr == m[FrameOf(a)]
    ensures a + k < 0x1_0000_0000 && b == PhysByte(m, a + k) == ByteAt(fr, at)
  {
    NearByte(m, a, fr, off, k, at);
    b := PhysByte(m, a + k);
  }

  lemma NearByte(m: Memory, a: Word, fr: Frame, off: nat, k: nat, at: nat)
    requires off == a % 0x1000 && at == off + k < 0x1000 && fr == m[FrameOf(a)]
    ensures a + k < 0x1_0000_0000 && PhysByte(m, a + k) == ByteAt(fr, at)
  {
    SamePage(a, k);
    PhysByteIs(m, a + k, fr, at);
  }

  lemma FourBytes(fr: Frame, off: nat, b0: Byte, b1: Byte, b2: Byte, b3: Byte)
    requires off <= 0xFFC && ByteAt(fr, off) == b0 && ByteAt(fr, off + 1) == b1
    requires ByteAt(fr, off + 2) == b2 && ByteAt(fr, off + 3) == b3
    ensures WordAt(fr, off) == Number(b0, b1, b2, b3)
  {
    WordNumbers(fr, off);
  }

  /** The frame holds the bytes at offset off. */
  ghost predicate BytesAt(fr: Frame, off: nat, bytes: seq<Byte>) {
    off + |bytes| <= 0x1000 && forall k: nat | k < |bytes| :: ByteIs(fr, off, k, bytes[k])
  }

  predicate ByteIs(fr: Frame, off: nat, k: nat, b: Byte)
    requires off + k < 0x1000
  {
    ByteAt(fr, off + k) == b
  }

  lemma LyingBytes(m: Memory, a: Word, bytes: seq<Byte>, fr: Frame, off: nat)
    requires Lies(m, a, bytes) && off == a % 0x1000 && fr == m[FrameOf(a)]
    ensures BytesAt(fr, off, bytes)
  {
    forall k: nat | k < |bytes|
      ensures ByteIs(fr, off, k, bytes[k])
    {
      NearByte(m, a, fr, off, k, off + k);
    }
  }

  lemma WordIn(fr: Frame, off: nat, bytes: seq<Byte>, d: nat, at: nat)
    requires BytesAt(fr, off, bytes) && d + 4 <= |bytes| && at == off + d
    ensures WordAt(fr, at) == Number(bytes[d], bytes[d + 1], bytes[d + 2], bytes[d + 3])
  {
    ByteIn(fr, off, bytes, d, at);
    ByteIn(fr, off, bytes, d + 1, at + 1);
    ByteIn(fr, off, bytes, d + 2, at + 2);
    ByteIn(fr, off, bytes, d + 3, at + 3);
    FourBytes(fr, at, bytes[d], bytes[d + 1], bytes[d + 2], bytes[d + 3]);
  }

  lemma ByteIn(fr: Frame, off: nat, bytes: seq<Byte>, k: nat, at: nat)
    requires BytesAt(fr, off, bytes) && k < |bytes| && at == off + k
    ensures ByteAt(fr, at) == bytes[k]
  {
    assert ByteIs(fr, off, k, bytes[k]);
  }

  // ----- root tables -----

  /** The lowest n bytes of a number, lowest first. */
  function Little(w: nat, n: nat): (s: seq<Byte>)
    ensures |s| == n
    decreases n, w
  {
    if n == 0 then [] else [w % 256] + Little(w / 256, n - 1)
  }

  /** Numbers of n bytes each, one behind the other. */
  function LittleAll(ws: seq<nat>, n: nat): seq<Byte> {
    if ws == [] then [] else Little(ws[0], n) + LittleAll(ws[1..], n)
  }

  /** A root table: the signature, the length of all of it, the rest of the header, and the pointers. */
  datatype RootImage = RootImage(signature: seq<Byte>, rest: seq<Byte>, pointers: seq<nat>) {
    predicate Valid() { |signature| == 4 && |rest| == 28 }

    /** The bytes of an XSDT, with 64-bit pointers, or of an RSDT, with 32-bit ones. */
    function Bytes(wide: bool): seq<Byte> {
      if wide then signature + Little(36 + 8 * |pointers|, 4) + rest + LittleAll(pointers, 8)
      else signature + Little(36 + 4 * |pointers|, 4) + rest + LittleAll(pointers, 4)
    }

    /** What a 32-bit kernel sees of the pointers. */
    function LowWords(): (r: seq<Word>)
      ensures |r| == |pointers| && forall e | 0 <= e < |r| :: r[e] == pointers[e] % 0x1_0000_0000
    {
      seq(|pointers|, e requires 0 <= e < |pointers| => pointers[e] % 0x1_0000_0000)
    }
  }

  /** Where number e starts. */
  function StartOf(n: nat, e: nat): nat {
    if e == 0 then 0 else n + StartOf(n, e - 1)
  }

  lemma {:induction false} StartsAt(e: nat)
    ensures StartOf(8, e) == 8 * e && StartOf(4, e) == 4 * e
  {
    if e > 0 {
      StartsAt(e - 1);
    }
  }

  lemma {:induction false} LittleAllSize(ws: seq<nat>, n: nat)
    ensures |LittleAll(ws, n)| == StartOf(n, |ws|)
  {
    if ws != [] {
      LittleAllSize(ws[1..], n);
    }
  }

  lemma {:induction false} LittleAllAt(ws: seq<nat>, n: nat, e: nat, k: nat, at: nat)
    requires e < |ws| && k < n && at == StartOf(n, e) + k
    ensures at < |LittleAll(ws, n)| && LittleAll(ws, n)[at] == Little(ws[e], n)[k]
    decreases e
  {
    if e == 0 {
      LittleFirst(ws, n, at);
    } else {
      LittleAllAt(ws[1..], n, e - 1, k, at - n);
      LittleRest(ws, n, at);
    }
  }

  lemma LittleFirst(ws: seq<nat>, n: nat, at: nat)
    requires ws != [] && at < n
    ensures at < |LittleAll(ws, n)| && LittleAll(ws, n)[at] == Little(ws[0], n)[at]
  {
    assert LittleAll(ws, n) == Little(ws[0], n) + LittleAll(ws[1..], n);
  }

  lemma LittleRest(ws: seq<nat>, n: nat, at: nat)
    requires ws != [] && n <= at < n + |LittleAll(ws[1..], n)|
    ensures at < |LittleAll(ws, n)| && LittleAll(ws, n)[at] == LittleAll(ws[1..], n)[at - n]
  {
    assert LittleAll(ws, n) == Little(ws[0], n) + LittleAll(ws[1..], n);
  }

  lemma LittleBytes(w: nat, n: nat)
    requires n >= 4
    ensures var s := Little(w, n);
            Number(s[0], s[1], s[2], s[3]) == w % 0x1_0000_0000
  {
    var w1, w2, w3 := w / 256, w / 256 / 256, w / 256 / 256 / 256;
    var s := Little(w, n);
    assert s[1..] == Little(w1, n - 1) && s[2..] == Little(w1, n - 1)[1..] == Little(w2, n - 2);
    assert s[3..] == Little(w2, n - 2)[1..] == Little(w3, n - 3);
    assert s[0] == w % 256 && s[1] == s[1..][0] == w1 % 256;
    assert s[2] == s[2..][0] == w2 % 256 && s[3] == s[3..][0] == w3 % 256;
    LowFour(w, w1, w2, w3);
  }

  lemma LowFour(w: nat, w1: nat, w2: nat, w3: nat)
    requires w1 == w / 256 && w2 == w1 / 256 && w3 == w2 / 256
    ensures w % 256 + 0x100 * (w1 % 256) + 0x1_0000 * (w2 % 256) + 0x100_0000 * (w3 % 256) == w % 0x1_0000_0000
  {
    var low := w % 256 + 0x100 * (w1 % 256) + 0x1_0000 * (w2 % 256) + 0x100_0000 * (w3 % 256);
    assert w == low + 0x1_0000_0000 * (w3 / 256);
  }

  /** The length field of such a table, and the low word of each pointer. */
  lemma ImageFields(image: RootImage, wide: bool)
    requires image.Valid()
    ensures var n, b := |image.pointers|, image.Bytes(wide);
            && |b| == 36 + (if wide then 8 else 4) * n
            && (|b| < 0x1_0000_0000 ==> Number(b[4], b[5], b[6], b[7]) == |b|)
  {
    var n := |image.pointers|;
    LittleAllSize(image.pointers, if wide then 8 else 4);
    StartsAt(n);
    if wide {
      LengthBytes(image.signature, 36 + 8 * n, image.rest, LittleAll(image.pointers, 8), image.Bytes(wide));
    } else {
      LengthBytes(image.signature, 36 + 4 * n, image.rest, LittleAll(image.pointers, 4), image.Bytes(wide));
    }
  }

  lemma LengthBytes(signature: seq<Byte>, size: nat, rest: seq<Byte>, all: seq<Byte>, b: seq<Byte>)
    requires |signature| == 4 && b == signature + Little(size, 4) + rest + all
    ensures size < 0x1_0000_0000 ==> Number(b[4], b[5], b[6], b[7]) == size
  {
    var s := Little(size, 4);
    LittleWord(size, s);
    FourBehind(signature, s, rest + all, b);
  }

  lemma LittleWord(w: nat, s: seq<Byte>)
    requires s == Little(w, 4)
    ensures w < 0x1_0000_0000 ==> Number(s[0], s[1], s[2], s[3]) == w
  {
    LittleBytes(w, 4);
  }

  lemma FourBehind(signature: seq<Byte>, s: seq<Byte>, rest: seq<Byte>, b: seq<Byte>)
    requires |signature| == 4 && |s| == 4 && b == signature + s + rest
    ensures b[4] == s[0] && b[5] == s[1] && b[6] == s[2] && b[7] == s[3]
  {
  }

  lemma ImagePointer(image: RootImage, wide: bool, e: nat, d: nat)
    requires image.Valid() && e < |image.pointers| && d == 36 + (if wide then 8 * e else 4 * e)
    ensures var b := image.Bytes(wide);
            && d + 4 <= |b|
            && Number(b[d], b[d + 1], b[d + 2], b[d + 3]) == image.pointers[e] % 0x1_0000_0000
  {
    ImageByte(image, wide, e, d, 0);
    ImageByte(image, wide, e, d, 1);
    ImageByte(image, wide, e, d, 2);
    ImageByte(image, wide, e, d, 3);
    LittleBytes(image.pointers[e], if wide then 8 else 4);
  }

  lemma ImageByte(image: RootImage, wide: bool, e: nat, d: nat, k: nat)
    requires image.Valid() && e < |image.pointers| && d == 36 + (if wide then 8 * e else 4 * e) && k < 4
    ensures var b := image.Bytes(wide);
            && d + k < |b| && b[d + k] == Little(image.pointers[e], if wide then 8 else 4)[k]
  {
    var all := if wide then LittleAll(image.pointers, 8) else LittleAll(image.pointers, 4);
    StartsAt(e);
    LittleAllAt(image.pointers, if wide then 8 else 4, e, k, d + k - 36);
    assert image.Bytes(wide)[36..] == all;
    assert image.Bytes(wide)[d + k] == all[d + k - 36];
  }

  /** The table lies at physical address a, in a frame without page tables and paging variables. */
  ghost predicate ImageAt(m: Memory, L: Layout, a: Word, wide: bool, image: RootImage) {
    image.Valid() && !L.Reserved(a / 0x1000) && Lies(m, a, image.Bytes(wide))
  }

  /** A root table that lies in memory has as many entries as the image has pointers, and pointer e is at offset
      36 + 8 * e of an XSDT, 36 + 4 * e of an RSDT. */
  lemma ImageRead(m: Memory, L: Layout, a: Word, wide: bool, image: RootImage, f: FrameNo, o: nat, was: seq<Word>)
    requires ImageAt(m, L, a, wide, image) && f == FrameOf(a) && o == a % 0x1000 && was == image.LowWords()
    ensures RootTable(m, L, f, o, wide, |was|)
    ensures Pointers(m[f], o + HEADER, wide, |was|) == was
  {
    ImageLength(m, L, a, wide, image, f, o);
    ImagePointers(m, L, a, wide, image, f, o);
  }

  lemma ImageLength(m: Memory, L: Layout, a: Word, wide: bool, image: RootImage, f: FrameNo, o: nat)
    requires ImageAt(m, L, a, wide, image) && f == FrameOf(a) && o == a % 0x1000
    ensures RootTable(m, L, f, o, wide, |image.pointers|)
  {
    var bytes := image.Bytes(wide);
    LyingBytes(m, a, bytes, m[f], o);
    LengthRead(m[f], o, wide, image, bytes, o + 4);
    RootTableIs(m, L, f, o, wide, |image.pointers|, |bytes|);
  }

  lemma ImagePointers(m: Memory, L: Layout, a: Word, wide: bool, image: RootImage, f: FrameNo, o: nat)
    requires ImageAt(m, L, a, wide, image) && f == FrameOf(a) && o == a % 0x1000
    requires o + HEADER + Slot(wide, |image.pointers|) <= 0x1000
    ensures Pointers(m[f], o + HEADER, wide, |image.pointers|) == image.LowWords()
  {
    var bytes := image.Bytes(wide);
    LyingBytes(m, a, bytes, m[f], o);
    PointersRead(m[f], o, wide, image, bytes, o + HEADER);
  }

  lemma RootTableIs(m: Memory, L: Layout, f: FrameNo, o: nat, wide: bool, n: nat, size: Word)
    requires !L.Reserved(f) && size == HEADER + Slot(wide, n) && o + size <= 0x1000
    requires Length(m[f], o) == size && Entries(size, wide) == n
    ensures RootTable(m, L, f, o, wide, n)
  {
  }

  lemma LengthRead(fr: Frame, o: nat, wide: bool, image: RootImage, bytes: seq<Byte>, at: nat)
    requires image.Valid() && bytes == image.Bytes(wide) && BytesAt(fr, o, bytes) && at == o + 4
    ensures |bytes| == HEADER + Slot(wide, |image.pointers|) && o + |bytes| <= 0x1000
    ensures Length(fr, o) == |bytes| && Entries(|bytes|, wide) == |image.pointers|
  {
    LengthField(image, wide, bytes);
    WordIn(fr, o, bytes, 4, at);
    LengthAt(fr, o, at);
    ImageSize(|image.pointers|, wide, |bytes|);
  }

  lemma LengthField(image: RootImage, wide: bool, bytes: seq<Byte>)
    requires image.Valid() && bytes == image.Bytes(wide) && |bytes| <= 0x1000
    ensures |bytes| == 36 + (if wide then 8 else 4) * |image.pointers|
    ensures Number(bytes[4], bytes[5], bytes[6], bytes[7]) == |bytes|
  {
    ImageFields(image, wide);
  }

  lemma ImageSize(n: nat, wide: bool, size: Word)
    requires size == 36 + (if wide then 8 else 4) * n
    ensures size == HEADER + Slot(wide, n) && Entries(size, wide) == n
  {
  }

  lemma PointersRead(fr: Frame, o: nat, wide: bool, image: RootImage, bytes: seq<Byte>, off: nat)
    requires image.Valid() && bytes == image.Bytes(wide) && BytesAt(fr, o, bytes) && off == o + HEADER
    requires off + Slot(wide, |image.pointers|) <= 0x1000
    ensures Pointers(fr, off, wide, |image.pointers|) == image.LowWords()
  {
    var words := image.LowWords();
    forall e: nat | e < |words|
      ensures PointerHolds(fr, off, wide, e, words[e])
    {
      OnePointer(fr, o, wide, image, bytes, off, e);
    }
    PointersHold(fr, off, wide, words);
  }

  lemma OnePointer(fr: Frame, o: nat, wide: bool, image: RootImage, bytes: seq<Byte>, off: nat, e: nat)
    requires image.Valid() && bytes == image.Bytes(wide) && BytesAt(fr, o, bytes) && off == o + HEADER
    requires e < |image.pointers|
    ensures PointerHolds(fr, off, wide, e, image.LowWords()[e])
  {
    PointerRead(fr, o, wide, image, bytes, e, off + Slot(wide, e));
  }

  predicate PointerHolds(fr: Frame, off: nat, wide: bool, e: nat, w: Word) {
    off + Slot(wide, e) <= 0xFFC && Pointer(fr, off, wide, e) == w
  }

  lemma PointersHold(fr: Frame, off: nat, wide: bool, words: seq<Word>)
    requires off + Slot(wide, |words|) <= 0x1000
    requires forall e: nat | e < |words| :: PointerHolds(fr, off, wide, e, words[e])
    ensures Pointers(fr, off, wide, |words|) == words
  {
  }

  lemma PointerRead(fr: Frame, o: nat, wide: bool, image: RootImage, bytes: seq<Byte>, e: nat, at: nat)
    requires image.Valid() && bytes == image.Bytes(wide) && BytesAt(fr, o, bytes) && e < |image.pointers|
    requires at == o + 36 + (if wide then 8 * e else 4 * e)
    ensures at <= 0xFFC && WordAt(fr, at) == image.pointers[e] % 0x1_0000_0000
  {
    ImagePointer(image, wide, e, at - o);
    WordIn(fr, o, bytes, at - o, at);
  }

  // ----- what rewriting makes of them -----

  /** The 32-bit number at offset 36 + 4 * e of the table at a is an address that leads to the pointer's low word. */
  ghost predicate LeadsAt(m: Memory, root: FrameNo, a: Word, e: nat, pointer: nat) {
    && a % 0x1000 + 36 + 4 * e <= 0xFFC
    && Translate(m, root, WordFrom(m, a, 36 + 4 * e)) == Some(pointer % 0x1_0000_0000)
  }

  /** The 32-bit number at offset d of what lies at a. */
  function WordFrom(m: Memory, a: Word, d: nat): Word
    requires a % 0x1000 + d <= 0xFFC
  {
    SamePage(a, d);
    PhysWord(m, a + d)
  }

  /** Unless a table spills, the index covers and every pointer has been replaced by an address that leads where
      it pointed to. */
  ghost predicate Replaced(L: Layout, s: K.State, s': K.State, a: Word, image: RootImage) {
    NoSpill(s.alloc, image.LowWords(), |image.pointers|) ==>
      && Q.Covered(L, s')
      && forall e: nat | e < |image.pointers| :: LeadsAt(s'.tables.mem, L.pd, a, e, image.pointers[e])
  }

  lemma WordsLead(L: Layout, s: K.State, s': K.State, a: Word, image: RootImage, f: FrameNo, off: nat, was: seq<Word>)
    requires Rewritten(L, s, s', f, off, was) && Q.Covered(L, s)
    requires f == FrameOf(a) && off == a % 0x1000 + HEADER && was == image.LowWords()
    ensures Replaced(L, s, s', a, image)
  {
    if NoSpill(s.alloc, was, |was|) {
      forall e: nat | e < |image.pointers|
        ensures LeadsAt(s'.tables.mem, L.pd, a, e, image.pointers[e])
      {
        assert HoldsWord(L, s', f, off, NewWords(s.alloc, was), e);
        assert Leads(L, s', NewWord(s.alloc, was, e), was[e]);
        WordLeads(s'.tables.mem, L.pd, a, e, image.pointers[e], NewWord(s.alloc, was, e), off);
      }
    }
  }

  lemma WordLeads(m: Memory, root: FrameNo, a: Word, e: nat, pointer: nat, word: Word, off: nat)
    requires off == a % 0x1000 + HEADER && off + 4 * e <= 0xFFC && Pointer(m[FrameOf(a)], off, false, e) == word
    requires Translate(m, root, word) == Some(pointer % 0x1_0000_0000)
    ensures LeadsAt(m, root, a, e, pointer)
  {
    WordThere(m, a, m[FrameOf(a)], 36 + 4 * e, off + 4 * e);
  }

  lemma WordThere(m: Memory, a: Word, fr: Frame, d: nat, at: nat)
    requires fr == m[FrameOf(a)] && at == a % 0x1000 + d <= 0xFFC
    ensures WordFrom(m, a, d) == WordAt(fr, at)
  {
    SamePage(a, d);
    PhysWordIs(m, a + d, fr, at);
  }

  /** `init_rsdt` behind the search, on a root table in bytes: it counts the pointers, maps the table, and unless a
      table spills, the 32-bit word e behind the header comes to lead to what pointer e pointed to. */
  method RewriteImage(m: Machine, rsdtPhysaddr: Word, acpiVersion: bool, ghost image: RootImage)
    returns (table: Word, entries: nat, ghost s: K.State)
    requires m.Valid() && Q.Covered(m.L, m.State()) && Roomy(m.State(), m.slots, |image.pointers| + 1)
    requires ImageAt(m.mem, m.L, rsdtPhysaddr, acpiVersion, image)
    modifies m, m.virtualMmap
    ensures m.Valid() && entries == |image.pointers|
    ensures Translate(m.mem, m.L.pd, table) == Some(rsdtPhysaddr)
    ensures K.MapReady(m.L, old(m.State())) && s == K.FindAndMap(m.L, old(m.State()), FrameOf(rsdtPhysaddr))
    ensures Replaced(m.L, s, m.State(), rsdtPhysaddr, image)
  {
    ghost var f, o, was := FrameOf(rsdtPhysaddr), rsdtPhysaddr % 0x1000, image.LowWords();
    ImageRead(m.mem, m.L, rsdtPhysaddr, acpiVersion, image, f, o, was);
    table, entries, s := RewriteRead(m, rsdtPhysaddr, acpiVersion, f, o, image, was);
    ArrayTranslates(m.mem, m.L, table, o, f, HEADER + Slot(acpiVersion, |was|), rsdtPhysaddr);
  }

  method RewriteRead(m: Machine, rsdtPhysaddr: Word, acpiVersion: bool, ghost f: FrameNo, ghost o: nat,
                     ghost image: RootImage, ghost was: seq<Word>)
    returns (table: Word, entries: nat, ghost s: K.State)
    requires m.Valid() && Q.Covered(m.L, m.State()) && Roomy(m.State(), m.slots, |was| + 1)
    requires f == FrameOf(rsdtPhysaddr) && o == rsdtPhysaddr % 0x1000 && RootTable(m.mem, m.L, f, o, acpiVersion, |was|)
    requires was == image.LowWords() == Pointers(m.mem[f], o + HEADER, acpiVersion, |was|)
    modifies m, m.virtualMmap
    ensures m.Valid() && entries == |image.pointers|
    ensures Array(m.mem, m.L, table, o, f, HEADER + Slot(acpiVersion, |was|))
    ensures K.MapReady(m.L, old(m.State())) && s == K.FindAndMap(m.L, old(m.State()), f)
    ensures Replaced(m.L, s, m.State(), rsdtPhysaddr, image)
  {
    table, entries, s := InitRootTable(m, rsdtPhysaddr, acpiVersion, f, o, was);
    WordsLead(m.L, s, m.State(), rsdtPhysaddr, image, f, o + HEADER, was);
  }

  lemma ArrayTranslates(m: Memory, L: Layout, va: Word, off: nat, f: FrameNo, bytes: nat, a: Word)
    requires Array(m, L, va, off, f, bytes) && f == FrameOf(a) && off == a % 0x1000
    ensures Translate(m, L.pd, va) == Some(a)
  {
    FrameAndOffset(a);
  }

  // ----- from power-on -----

  /** What the firmware left: EBDA candidates that are shown, up to the first root pointer, which is candidate i,
      at r, and a root table of the kind and at the address it says. */
  ghost predicate FirmwareLeft(L: Layout, ram: Memory, i: nat, r: nat, a: Word, image: RootImage) {
    var read := BootView(L, ram);
    && (forall j: nat | j < 0x100 && NoneBefore(read, 0, j) :: CandidateShown(L, read, Candidate(read, j)))
    && IsFirst(read, i, r) && a == RootAddress(read, r) && ImageAt(ram, L, a, read(r + 15) != 0, image)
  }

  lemma FirmwareRead(L: Layout, ram: Memory, i: nat, r: nat, a: Word, image: RootImage, f: FrameNo, o: nat,
                     was: seq<Word>)
    requires FirmwareLeft(L, ram, i, r, a, image) && f == FrameOf(a) && o == a % 0x1000 && was == image.LowWords()
    ensures Firmware(L, ram, i, r, f, o, was)
  {
    ImageRead(ram, L, a, Revised(BootView(L, ram), r), image, f, o, was);
  }

  /** From power-on to rewritten pointers: `entries` counts them, `table` is where the root table is seen, and
      unless a table spills, each word leads to its table. Tables with their signatures within a page never spill. */
  method Discover(layout: Layout, ram: Memory, kernelEnd: Word, literal: nat,
                  ghost i: nat, ghost r: nat, ghost a: Word, ghost image: RootImage)
    returns (m: Machine, table: Word, entries: nat, ghost s: K.State)
    requires Startup.Loaded(layout, ram, kernelEnd, literal) && FirmwareLeft(layout, ram, i, r, a, image)
    ensures fresh(m) && fresh(m.virtualMmap) && m.Valid() && m.L == layout && entries == |image.pointers|
    ensures Translate(m.mem, layout.pd, table) == Some(a)
    ensures Replaced(layout, s, m.State(), a, image)
    ensures (forall e: nat | e < |image.pointers| :: image.pointers[e] % 0x1000 <= 0xFFC) ==>
              forall e: nat | e < |image.pointers| :: LeadsAt(m.mem, layout.pd, a, e, image.pointers[e])
  {
    ghost var f, o, was := FrameOf(a), a % 0x1000, image.LowWords();
    FirmwareRead(layout, ram, i, r, a, image, f, o, was);
    var search;
    m, search, table, entries, s := DiscoverTables(layout, ram, kernelEnd, literal, i, r, f, o, was);
    Discovered(layout, s, m.State(), a, image, f, o, was, table, HEADER + Slot(search.acpiVersion, |was|));
  }

  lemma Discovered(L: Layout, s: K.State, s': K.State, a: Word, image: RootImage, f: FrameNo, o: nat, was: seq<Word>,
                   table: Word, bytes: nat)
    requires Rewritten(L, s, s', f, o + HEADER, was) && Q.Covered(L, s) && Array(s'.tables.mem, L, table, o, f, bytes)
    requires f == FrameOf(a) && o == a % 0x1000 && was == image.LowWords()
    ensures Translate(s'.tables.mem, L.pd, table) == Some(a) && Replaced(L, s, s', a, image)
    ensures (forall e: nat | e < |image.pointers| :: image.pointers[e] % 0x1000 <= 0xFFC) ==>
              forall e: nat | e < |image.pointers| :: LeadsAt(s'.tables.mem, L.pd, a, e, image.pointers[e])
  {
    ArrayTranslates(s'.tables.mem, L, table, o, f, bytes, a);
    WordsLead(L, s, s', a, image, f, o + HEADER, was);
    NeverSpills(L, s, s', a, image);
  }

  lemma NeverSpills(L: Layout, s: K.State, s': K.State, a: Word, image: RootImage)
    requires Replaced(L, s, s', a, image)
    ensures (forall e: nat | e < |image.pointers| :: image.pointers[e] % 0x1000 <= 0xFFC) ==>
              forall e: nat | e < |image.pointers| :: LeadsAt(s'.tables.mem, L.pd, a, e, image.pointers[e])
  {
    if forall e: nat | e < |image.pointers| :: image.pointers[e] % 0x1000 <= 0xFFC {
      var was := image.LowWords();
      forall e | 0 <= e < |was|
        ensures !Crosses(was[e])
      {
        LowOffset(image.pointers[e]);
      }
      NoCrossing(s.alloc, was, |was|);
    }
  }

  lemma LowOffset(pointer: nat)
    ensures pointer % 0x1_0000_0000 % 0x1000 == pointer % 0x1000
  {
    var q, r := pointer / 0x1_0000_0000, pointer % 0x1_0000_0000;
    OffsetParts(pointer, q, r, r / 0x1000, r % 0x1000);
  }

  lemma OffsetParts(pointer: nat, q: nat, r: nat, page: nat, offset: nat)
    requires pointer == 0x1_0000_0000 * q + r && r == 0x1000 * page + offset && offset < 0x1000
    ensures pointer % 0x1000 == offset
  {
    DivModUnique(pointer, 0x1000, 0x10_0000 * q + page, offset);
  }

  // ----- what a driver finds -----

  /** The first four bytes at a physical address. */
  predicate Carries(m: Memory, w: Word, head: seq<Byte>) {
    && w % 0x1000 <= 0xFFC && |head| >= 4 && w + 3 < 0x1_0000_0000
    && PhysByte(m, w) == head[0] && PhysByte(m, w + 1) == head[1]
    && PhysByte(m, w + 2) == head[2] && PhysByte(m, w + 3) == head[3]
  }

  lemma CarriesIs(m: Memory, w: Word, head: seq<Byte>)
    requires !Crosses(w) && |head| >= 4
    ensures Carries(m, w, head) <==> Signature(m, w) == head[..4]
  {
    var fr, o := m[FrameOf(w)], w % 0x1000;
    NearByte(m, w, fr, o, 0, o);
    NearByte(m, w, fr, o, 1, o + 1);
    NearByte(m, w, fr, o, 2, o + 2);
    NearByte(m, w, fr, o, 3, o + 3);
    FourEqual(Signature(m, w), head, PhysByte(m, w), PhysByte(m, w + 1), PhysByte(m, w + 2), PhysByte(m, w + 3));
  }

  lemma FourEqual(s: seq<Byte>, head: seq<Byte>, b0: Byte, b1: Byte, b2: Byte, b3: Byte)
    requires s == [b0, b1, b2, b3] && |head| >= 4
    ensures s == head[..4] <==> b0 == head[0] && b1 == head[1] && b2 == head[2] && b3 == head[3]
  {
    if s == head[..4] {
      assert head[..4][0] == head[0] && head[..4][1] == head[1] && head[..4][2] == head[2] && head[..4][3] == head[3];
    }
  }

  /** Table e of the firmware's list is the first that carries the signature, and the address leads to it. */
  ghost predicate FirstListed(m: Memory, root: FrameNo, pointers: seq<nat>, head: seq<Byte>, e: nat, location: Word) {
    && e < |pointers| && Translate(m, root, location) == Some(pointers[e] % 0x1_0000_0000)
    && Carries(m, pointers[e] % 0x1_0000_0000, head)
    && forall k | 0 <= k < e :: !Carries(m, pointers[k] % 0x1_0000_0000, head)
  }

  /** `find_by_header` after all this, with an RSDT whose tables have their signatures within a page: the first of
      the firmware's pointers behind which the signature stands, 0 exactly when there is none. */
  method FindListed(layout: Layout, ram: Memory, kernelEnd: Word, literal: nat, head: seq<Byte>,
                    ghost i: nat, ghost r: nat, ghost a: Word, ghost image: RootImage)
    returns (m: Machine, location: Word)
    requires Startup.Loaded(layout, ram, kernelEnd, literal) && FirmwareLeft(layout, ram, i, r, a, image)
    requires BootView(layout, ram)(r + 15) == 0 && |head| >= 4
    requires forall e | 0 <= e < |image.pointers| ::
               image.pointers[e] % 0x1000 <= 0xFFC && image.pointers[e] % 0x1_0000_0000 / 0x1000 !in layout.vars
    ensures m.Valid() && m.L == layout
    ensures location == 0 <==> forall e | 0 <= e < |image.pointers| ::
                                 !Carries(m.mem, image.pointers[e] % 0x1_0000_0000, head)
    ensures location != 0 ==> exists e :: FirstListed(m.mem, layout.pd, image.pointers, head, e, location)
  {
    ghost var f, o, was := FrameOf(a), a % 0x1000, image.LowWords();
    FirmwareRead(layout, ram, i, r, a, image, f, o, was);
    WordsWithin(image, was, layout.vars);
    m, location := DiscoverTable(layout, ram, kernelEnd, literal, head, i, r, f, o, was);
    ListedIs(m.mem, layout, image, was, head, location);
  }

  lemma WordsWithin(image: RootImage, was: seq<Word>, vars: set<FrameNo>)
    requires was == image.LowWords()
    requires forall e | 0 <= e < |image.pointers| ::
               image.pointers[e] % 0x1000 <= 0xFFC && image.pointers[e] % 0x1_0000_0000 / 0x1000 !in vars
    ensures forall e | 0 <= e < |was| :: !Crosses(was[e]) && FrameOf(was[e]) !in vars
  {
    forall e | 0 <= e < |was|
      ensures !Crosses(was[e]) && FrameOf(was[e]) !in vars
    {
      LowOffset(image.pointers[e]);
    }
  }

  lemma ListedIs(m: Memory, L: Layout, image: RootImage, was: seq<Word>, head: seq<Byte>, location: Word)
    requires was == image.LowWords() && |head| >= 4 && forall e | 0 <= e < |was| :: !Crosses(was[e])
    requires location == 0 <==> forall e | 0 <= e < |was| :: !Crosses(was[e]) && Signature(m, was[e]) != head[..4]
    requires location != 0 ==> exists e :: Found(m, L, was, head[..4], e, location)
    ensures location == 0 <==> forall e | 0 <= e < |image.pointers| ::
                                 !Carries(m, image.pointers[e] % 0x1_0000_0000, head)
    ensures location != 0 ==> exists e :: FirstListed(m, L.pd, image.pointers, head, e, location)
  {
    forall e | 0 <= e < |was|
      ensures was[e] == image.pointers[e] % 0x1_0000_0000
      ensures Carries(m, was[e], head) <==> Signature(m, was[e]) == head[..4]
    {
      CarriesIs(m, was[e], head);
    }
    if location != 0 {
      var e :| Found(m, L, was, head[..4], e, location);
      assert FirstListed(m, L.pd, image.pointers, head, e, location);
    }
  }
}
