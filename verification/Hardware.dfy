/** What the processor provides: physical memory as page frames of 32-bit words, and the
    two-level page walk (Intel SDM volume 3A, section 4.3, 32-bit paging without large pages). */
module Hardware {

  datatype Option<+T> = None | Some(value: T)

  type Index = i: nat | i < 1024
  type FrameNo = f: nat | f < 0x10_0000
  type PageNo = p: nat | p < 0x10_0000
  type Byte = b: nat | b < 256
  type Word = w: nat | w < 0x1_0000_0000

  /** Byte memory as seen through a pointer. */
  type Bytes = nat -> Byte
  type Frame = f: seq<Word> | |f| == 1024 witness seq(1024, _ => 0)
  type Memory = m: seq<Frame> | |m| == 0x10_0000 witness seq<Frame>(0x10_0000, _ => ZeroFrame())

  predicate IsZero(fr: Frame) { forall t: Index :: fr[t] == 0 }

  function ZeroFrame(): (fr: Frame)
    ensures IsZero(fr)
  {
    seq(1024, _ => 0)
  }

  // ----- page-table entries -----

  predicate Present(e: Word) { e % 2 == 1 }

  predicate Writable(e: Word) { e / 2 % 2 == 1 }

  function FrameOf(e: Word): FrameNo { e / 0x1000 }

  /** The entry for a frame with the given low bits; 3 means present and writable. */
  function Entry(f: FrameNo, flags: nat): (e: Word)
    requires flags < 0x1000
    ensures FrameOf(e) == f
    ensures Present(e) <==> flags % 2 == 1
    ensures flags == 3 ==> Writable(e)
  {
    EntryParts(f, flags);
    f * 0x1000 + flags
  }

  lemma EntryParts(f: FrameNo, flags: nat)
    requires flags < 0x1000
    ensures f * 0x1000 + flags < 0x1_0000_0000
    ensures (f * 0x1000 + flags) / 0x1000 == f
    ensures (f * 0x1000 + flags) % 2 == flags % 2
    ensures flags == 3 ==> (f * 0x1000 + flags) / 2 % 2 == 1
  {
    EvenPlus(f * 0x800, flags);
    if flags == 3 {
      EvenPlus(f * 0x400, 1);
      assert (f * 0x1000 + flags) / 2 == 2 * (f * 0x400) + 1;
    }
  }

  lemma EvenPlus(q: nat, r: nat)
    ensures (2 * q + r) % 2 == r % 2
  {
  }

  // ----- the page walk -----

  /** Where a page leads: the frame and whether the supervisor may write to it. CR0.WP is
      set at boot, so supervisor writes honour the writable bits of both levels. */
  datatype Leaf = Leaf(frame: FrameNo, writable: bool)

  function LeafOf(pde: Word, pte: Word): Option<Leaf> {
    if Present(pte) then Some(Leaf(FrameOf(pte), Writable(pde) && Writable(pte))) else None
  }

  function Walk(m: Memory, root: FrameNo, d: Index, t: Index): Option<Leaf> {
    var pde := m[root][d];
    if Present(pde) then LeafOf(pde, m[FrameOf(pde)][t]) else None
  }

  function DirOf(p: PageNo): Index { p / 1024 }

  function IdxOf(p: PageNo): Index { p % 1024 }

  function PageAt(d: Index, t: Index): (p: PageNo)
    ensures DirOf(p) == d && IdxOf(p) == t
  {
    d * 1024 + t
  }

  function PageOf(va: Word): PageNo { va / 0x1000 }

  function WalkPage(m: Memory, root: FrameNo, p: PageNo): Option<Leaf> {
    Walk(m, root, DirOf(p), IdxOf(p))
  }

  /** The translation of an address, page offset included. */
  function Translate(m: Memory, root: FrameNo, va: Word): Option<Word> {
    match WalkPage(m, root, PageOf(va))
    case None => None
    case Some(leaf) => Some(leaf.frame * 0x1000 + va % 0x1000)
  }

  /** The walk in numbers: bits 22 to 31 of the address choose the directory entry, bits 12 to 21 the table entry;
      bit 0 of an entry says that it is present, bit 1 that it is writable, bits 12 to 31 where it leads. */
  lemma TranslateNumbers(m: Memory, root: FrameNo, va: Word)
    ensures var pde := m[root][va / 0x40_0000];
            var pte := m[pde / 0x1000][va / 0x1000 % 0x400];
            && Translate(m, root, va) == (if pde % 2 == 1 && pte % 2 == 1
                 then Some(pte / 0x1000 * 0x1000 + va % 0x1000) else None)
            && (WalkPage(m, root, PageOf(va)).Some? ==>
                  (WalkPage(m, root, PageOf(va)).value.writable <==> pde / 2 % 2 == 1 && pte / 2 % 2 == 1))
  {
    PageParts(va);
  }

  lemma PageParts(va: Word)
    ensures DirOf(PageOf(va)) == va / 0x40_0000 && IdxOf(PageOf(va)) == va / 0x1000 % 0x400
  {
  }

  /** The address space a directory defines: every translated page with its leaf. */
  ghost function Space(m: Memory, root: FrameNo): map<PageNo, Leaf> {
    map p: PageNo | 0 <= p < 0x10_0000 && WalkPage(m, root, p).Some? :: WalkPage(m, root, p).value
  }

  function SetEntry(m: Memory, f: FrameNo, i: Index, v: Word): Memory {
    m[f := m[f][i := v]]
  }

  lemma SpaceUpdate(m: Memory, m': Memory, root: FrameNo, d: Index, t: Index, leaf: Leaf)
    requires forall d': Index, t': Index :: Walk(m', root, d', t') ==
               if d' == d && t' == t then Some(leaf) else Walk(m, root, d', t')
    ensures Space(m', root) == Space(m, root)[PageAt(d, t) := leaf]
  {
    forall p: PageNo
      ensures WalkPage(m', root, p) == if p == PageAt(d, t) then Some(leaf) else WalkPage(m, root, p)
    {
      assert p == DirOf(p) * 1024 + IdxOf(p);
    }
  }

  // ----- bytes and unaligned words, little endian -----

  /** Byte s of a word, lowest first. */
  function Digit(w: Word, s: nat): Byte
    requires s < 4
  {
    if s == 0 then w % 256
    else if s == 1 then w / 0x100 % 256
    else if s == 2 then w / 0x1_0000 % 256
    else w / 0x100_0000
  }

  /** The word whose bytes are b0 to b3, lowest first. */
  function Join(b0: Byte, b1: Byte, b2: Byte, b3: Byte): (w: Word)
    ensures Digit(w, 0) == b0 && Digit(w, 1) == b1 && Digit(w, 2) == b2 && Digit(w, 3) == b3
  {
    var w := b0 + 0x100 * b1 + 0x1_0000 * b2 + 0x100_0000 * b3;
    assert w / 0x100 == b1 + 0x100 * b2 + 0x1_0000 * b3;
    assert w / 0x1_0000 == b2 + 0x100 * b3;
    w
  }

  lemma JoinDigits(w: Word)
    ensures w == Join(Digit(w, 0), Digit(w, 1), Digit(w, 2), Digit(w, 3))
  {
    assert w / 0x1_0000 == w / 0x100_0000 * 0x100 + w / 0x1_0000 % 256;
    assert w / 0x100 == w / 0x1_0000 * 0x100 + w / 0x100 % 256;
  }

  function ByteAt(fr: Frame, off: nat): Byte
    requires off < 0x1000
  {
    Digit(fr[off / 4], off % 4)
  }

  function WithByte(w: Word, s: nat, b: Byte): Word
    requires s < 4
  {
    Join(if s == 0 then b else Digit(w, 0), if s == 1 then b else Digit(w, 1),
         if s == 2 then b else Digit(w, 2), if s == 3 then b else Digit(w, 3))
  }

  function PutByte(fr: Frame, off: nat, b: Byte): Frame
    requires off < 0x1000
  {
    fr[off / 4 := WithByte(fr[off / 4], off % 4, b)]
  }

  function WordAt(fr: Frame, off: nat): Word
    requires off <= 0xFFC
  {
    Join(ByteAt(fr, off), ByteAt(fr, off + 1), ByteAt(fr, off + 2), ByteAt(fr, off + 3))
  }

  /** Bytes of memory in numbers: the lowest byte of a word comes first. */
  lemma LittleEndian(fr: Frame, i: Index)
    ensures ByteAt(fr, 4 * i) == fr[i] % 0x100
    ensures ByteAt(fr, 4 * i + 1) == fr[i] / 0x100 % 0x100
    ensures ByteAt(fr, 4 * i + 2) == fr[i] / 0x1_0000 % 0x100
    ensures ByteAt(fr, 4 * i + 3) == fr[i] / 0x100_0000
  {
    AlignedByte(fr, i, 4 * i, 0);
    AlignedByte(fr, i, 4 * i, 1);
    AlignedByte(fr, i, 4 * i, 2);
    AlignedByte(fr, i, 4 * i, 3);
  }

  /** A word at any offset in numbers. */
  lemma WordNumbers(fr: Frame, off: nat)
    requires off <= 0xFFC
    ensures WordAt(fr, off) == ByteAt(fr, off) + 0x100 * ByteAt(fr, off + 1)
                               + 0x1_0000 * ByteAt(fr, off + 2) + 0x100_0000 * ByteAt(fr, off + 3)
  {
  }

  /** The frame after storing the lowest n bytes of v. */
  function PutBytes(fr: Frame, off: nat, v: Word, n: nat): Frame
    requires n <= 4 && off + n <= 0x1000
    decreases n, off
  {
    if n == 0 then fr else PutByte(PutBytes(fr, off, v, n - 1), off + n - 1, Digit(v, n - 1))
  }

  function PutWord(fr: Frame, off: nat, v: Word): Frame
    requires off <= 0xFFC
  {
    PutBytes(fr, off, v, 4)
  }

  lemma PutByteAt(fr: Frame, off: nat, b: Byte, o: nat)
    requires off < 0x1000 && o < 0x1000
    ensures ByteAt(PutByte(fr, off, b), o) == if o == off then b else ByteAt(fr, o)
  {
    var w := WithByte(fr[off / 4], off % 4, b);
    assert forall s | 0 <= s < 4 :: Digit(w, s) == if s == off % 4 then b else Digit(fr[off / 4], s);
  }

  /** A word store changes its own four bytes and no other. */
  lemma {:induction false} PutBytesAt(fr: Frame, off: nat, v: Word, n: nat, o: nat)
    requires n <= 4 && off + n <= 0x1000 && o < 0x1000
    ensures ByteAt(PutBytes(fr, off, v, n), o) ==
            if off <= o < off + n then Digit(v, o - off) else ByteAt(fr, o)
    decreases n
  {
    if n > 0 {
      PutBytesAt(fr, off, v, n - 1, o);
      PutByteAt(PutBytes(fr, off, v, n - 1), off + n - 1, Digit(v, n - 1), o);
    }
  }

  lemma PutWordBytes(fr: Frame, off: nat, v: Word, o: nat)
    requires off <= 0xFFC && o < 0x1000
    ensures ByteAt(PutWord(fr, off, v), o) ==
            if off <= o < off + 4 then Digit(v, o - off) else ByteAt(fr, o)
  {
    PutBytesAt(fr, off, v, 4, o);
  }

  /** Reading back a word that was stored, and reading beside it, at any alignment. */
  lemma PutWordAt(fr: Frame, off: nat, v: Word, o: nat)
    requires off <= 0xFFC && o <= 0xFFC
    ensures o == off ==> WordAt(PutWord(fr, off, v), o) == v
    ensures o + 4 <= off || off + 4 <= o ==> WordAt(PutWord(fr, off, v), o) == WordAt(fr, o)
  {
    PutWordBytes(fr, off, v, o);
    PutWordBytes(fr, off, v, o + 1);
    PutWordBytes(fr, off, v, o + 2);
    PutWordBytes(fr, off, v, o + 3);
    if o == off {
      JoinDigits(v);
    }
  }

  /** On aligned offsets the byte view and the word view of a frame coincide. */
  lemma AlignedWord(fr: Frame, i: Index, v: Word)
    ensures WordAt(fr, 4 * i) == fr[i]
    ensures PutWord(fr, 4 * i, v) == fr[i := v]
  {
    AlignedRead(fr, i);
    var p := PutWord(fr, 4 * i, v);
    AlignedRead(p, i);
    PutWordAt(fr, 4 * i, v, 4 * i);
    forall k: Index | k != i
      ensures p[k] == fr[k]
    {
      AlignedRead(fr, k);
      AlignedRead(p, k);
      PutWordAt(fr, 4 * i, v, 4 * k);
    }
  }

  lemma AlignedRead(fr: Frame, i: Index)
    ensures WordAt(fr, 4 * i) == fr[i]
  {
    forall s: nat | s < 4
      ensures ByteAt(fr, 4 * i + s) == Digit(fr[i], s)
    {
      AlignedByte(fr, i, 4 * i, s);
    }
    DigitsJoin(fr, 4 * i, fr[i]);
  }

  lemma AlignedByte(fr: Frame, i: Index, off: nat, s: nat)
    requires s < 4 && off == 4 * i
    ensures ByteAt(fr, off + s) == Digit(fr[i], s)
  {
    assert (off + s) / 4 == i;
  }

  lemma DigitsJoin(fr: Frame, off: nat, w: Word)
    requires off <= 0xFFC && forall s: nat | s < 4 :: ByteAt(fr, off + s) == Digit(w, s)
    ensures WordAt(fr, off) == w
  {
    JoinDigits(w);
    assert ByteAt(fr, off + 0) == Digit(w, 0);
    assert ByteAt(fr, off + 1) == Digit(w, 1);
    assert ByteAt(fr, off + 2) == Digit(w, 2);
    assert ByteAt(fr, off + 3) == Digit(w, 3);
  }

  // ----- memory as a program sees it -----

  predicate Mapped(m: Memory, root: FrameNo, a: nat) {
    a < 0x1_0000_0000 && WalkPage(m, root, PageOf(a)).Some?
  }

  /** The bytes at the addresses marked `mapped` can be read, and are what `read` says. */
  ghost predicate Sees(m: Memory, root: FrameNo, read: Bytes, mapped: nat -> bool) {
    forall a: nat {:trigger ByteSeen(m, root, a)} | mapped(a) :: Mapped(m, root, a) && read(a) == ByteSeen(m, root, a)
  }

  predicate Range(mapped: nat -> bool, a: nat, n: nat) {
    forall b: nat | a <= b < a + n :: mapped(b)
  }

  /** The byte at a translated address; 0 where nothing is mapped. */
  function ByteSeen(m: Memory, root: FrameNo, a: nat): Byte {
    if Mapped(m, root, a) then ByteAt(m[WalkPage(m, root, PageOf(a)).value.frame], a % 0x1000) else 0
  }

  function View(m: Memory, root: FrameNo): Bytes {
    (a: nat) => ByteSeen(m, root, a)
  }

  function Word32(read: Bytes, a: nat): Word {
    Join(read(a), read(a + 1), read(a + 2), read(a + 3))
  }

  /** A word within a page, read byte by byte. */
  lemma WordSeen(m: Memory, root: FrameNo, va: Word)
    requires Mapped(m, root, va) && va % 0x1000 <= 0xFFC
    ensures va + 3 < 0x1_0000_0000
    ensures Join(ByteSeen(m, root, va), ByteSeen(m, root, va + 1), ByteSeen(m, root, va + 2), ByteSeen(m, root, va + 3))
            == WordAt(m[WalkPage(m, root, PageOf(va)).value.frame], va % 0x1000)
  {
    NextByte(va, 1);
    NextByte(va, 2);
    NextByte(va, 3);
  }

  lemma NextByte(va: Word, d: nat)
    requires va % 0x1000 + d < 0x1000
    ensures va + d < 0x1_0000_0000
    ensures PageOf(va + d) == PageOf(va) && (va + d) % 0x1000 == va % 0x1000 + d
  {
  }
}
