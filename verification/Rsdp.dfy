/** The search for the ACPI root pointer (ACPI specification, section 5.2.5.1), on the running
    machine. */
module Rsdp {
  import opened Bits
  import opened Hardware
  import opened Tables
  import opened Machine
  import opened Libc

  /** The bytes of "RSD PTR ". */
  const SIGNATURE: seq<Byte> := [0x52, 0x53, 0x44, 0x20, 0x50, 0x54, 0x52, 0x20]

  function Sum(read: Bytes, a: nat, n: nat): nat
    decreases n, a
  {
    if n == 0 then 0 else Sum(read, a, n - 1) + read(a + n - 1)
  }

  predicate Revised(read: Bytes, a: nat) { read(a + 15) != 0 }

  function RecordLength(read: Bytes, a: nat): nat {
    if Revised(read, a) then 36 else 20
  }

  /** A root pointer: the signature, and bytes that add up to 0 modulo 256 over the record's length. */
  ghost predicate IsRsdp(read: Bytes, a: nat) {
    && Slice(read, a, 8) == SIGNATURE
    && Sum(read, a, RecordLength(read, a)) % 256 == 0
  }

  /** Start of the extended BIOS data area: the 16-bit word at 0x413, times 1024. */
  function Ebda(read: Bytes): nat {
    (read(KERNEL_BASE + 0x413) + 0x100 * read(KERNEL_BASE + 0x414)) * 0x400 + KERNEL_BASE
  }

  const CANDIDATES: nat := 0x100 + 0x2000

  /** The places searched, in order: 4 KiB of the EBDA, then 0xE0000 to 0xFFFFF, every 16 bytes. */
  function Candidate(read: Bytes, i: nat): nat {
    if i < 0x100 then Ebda(read) + 16 * i else KERNEL_BASE + 0xE_0000 + 16 * (i - 0x100)
  }

  /** No candidate from `first` up to i is a root pointer. */
  ghost predicate NoneBefore(read: Bytes, first: nat, i: nat) {
    forall j: nat | first <= j < i :: !IsRsdp(read, Candidate(read, j))
  }

  /** r is the first root pointer among the candidates, namely candidate i. */
  ghost predicate IsFirst(read: Bytes, i: nat, r: nat) {
    i < CANDIDATES && r == Candidate(read, i) && IsRsdp(read, r) && NoneBefore(read, 0, i)
  }

  lemma FirstUnique(read: Bytes, i: nat, r: nat, i': nat, r': nat)
    requires IsFirst(read, i, r) && IsFirst(read, i', r')
    ensures i == i' && r == r'
  {
  }

  /** The root table's physical address: the low word of the 64-bit field in a revised record, the
      32-bit field in an old one. */
  function RootAddress(read: Bytes, r: nat): Word {
    if Revised(read, r) then Word32(read, r + 24) else Word32(read, r + 16)
  }

  // ----- the records and the places in bytes -----

  /** A root pointer in bytes: "RSD PTR " and bytes that add up to 0 modulo 256, the first 20 of them when byte 15
      is 0, whatever follows, and else the first 36. */
  lemma RootPointerBytes(read: Bytes, a: nat)
    ensures IsRsdp(read, a) <==>
              && read(a) == 0x52 && read(a + 1) == 0x53 && read(a + 2) == 0x44 && read(a + 3) == 0x20
              && read(a + 4) == 0x50 && read(a + 5) == 0x54 && read(a + 6) == 0x52 && read(a + 7) == 0x20
              && (read(a) + read(a + 1) + read(a + 2) + read(a + 3) + read(a + 4) + read(a + 5) + read(a + 6)
                  + read(a + 7) + read(a + 8) + read(a + 9) + read(a + 10) + read(a + 11) + read(a + 12) + read(a + 13)
                  + read(a + 14) + read(a + 15) + read(a + 16) + read(a + 17) + read(a + 18) + read(a + 19)
                  + (if read(a + 15) == 0 then 0 else
                       read(a + 20) + read(a + 21) + read(a + 22) + read(a + 23) + read(a + 24) + read(a + 25)
                       + read(a + 26) + read(a + 27) + read(a + 28) + read(a + 29) + read(a + 30) + read(a + 31)
                       + read(a + 32) + read(a + 33) + read(a + 34) + read(a + 35))) % 256 == 0
  {
    SignatureBytes(read, a);
    FirstTwenty(read, a);
    LastSixteen(read, a);
  }

  lemma SignatureBytes(read: Bytes, a: nat)
    ensures Slice(read, a, 8) == SIGNATURE <==>
              && read(a) == 0x52 && read(a + 1) == 0x53 && read(a + 2) == 0x44 && read(a + 3) == 0x20
              && read(a + 4) == 0x50 && read(a + 5) == 0x54 && read(a + 6) == 0x52 && read(a + 7) == 0x20
  {
    SliceStarts(read, a);
    if Starts(read, a, 8) {
      assert read(a + 0) == SIGNATURE[0] && read(a + 1) == SIGNATURE[1] && read(a + 2) == SIGNATURE[2];
      assert read(a + 3) == SIGNATURE[3] && read(a + 4) == SIGNATURE[4] && read(a + 5) == SIGNATURE[5];
      assert read(a + 6) == SIGNATURE[6] && read(a + 7) == SIGNATURE[7];
    }
  }

  lemma SumFour(read: Bytes, a: nat, n: nat)
    ensures Sum(read, a, n + 4) == Sum(read, a, n) + read(a + n) + read(a + n + 1) + read(a + n + 2) + read(a + n + 3)
  {
    assert Sum(read, a, n + 2) == Sum(read, a, n) + read(a + n) + read(a + n + 1);
  }

  lemma FirstTwenty(read: Bytes, a: nat)
    ensures Sum(read, a, 20) ==
              read(a) + read(a + 1) + read(a + 2) + read(a + 3) + read(a + 4) + read(a + 5) + read(a + 6)
              + read(a + 7) + read(a + 8) + read(a + 9) + read(a + 10) + read(a + 11) + read(a + 12) + read(a + 13)
              + read(a + 14) + read(a + 15) + read(a + 16) + read(a + 17) + read(a + 18) + read(a + 19)
  {
    SumFour(read, a, 0);
    SumFour(read, a, 4);
    SumFour(read, a, 8);
    SumFour(read, a, 12);
    SumFour(read, a, 16);
  }

  lemma LastSixteen(read: Bytes, a: nat)
    ensures Sum(read, a, 36) == Sum(read, a, 20)
              + read(a + 20) + read(a + 21) + read(a + 22) + read(a + 23) + read(a + 24) + read(a + 25)
              + read(a + 26) + read(a + 27) + read(a + 28) + read(a + 29) + read(a + 30) + read(a + 31)
              + read(a + 32) + read(a + 33) + read(a + 34) + read(a + 35)
  {
    SumFour(read, a, 20);
    SumFour(read, a, 24);
    SumFour(read, a, 28);
    SumFour(read, a, 32);
  }

  /** The root table's address in bytes. */
  lemma RootAddressBytes(read: Bytes, r: nat)
    ensures RootAddress(read, r) == if read(r + 15) == 0
              then read(r + 16) + 0x100 * read(r + 17) + 0x1_0000 * read(r + 18) + 0x100_0000 * read(r + 19)
              else read(r + 24) + 0x100 * read(r + 25) + 0x1_0000 * read(r + 26) + 0x100_0000 * read(r + 27)
  {
    WordBytes(read, r + 16);
    WordBytes(read, r + 24);
  }

  lemma WordBytes(read: Bytes, a: nat)
    ensures Word32(read, a) == read(a) + 0x100 * read(a + 1) + 0x1_0000 * read(a + 2) + 0x100_0000 * read(a + 3)
  {
  }

  /** The places searched: 256 in the EBDA, then those from 0xC00E0000 to 0xC00FFFF0. */
  lemma CandidatePlaces(read: Bytes, i: nat)
    requires i < 8448
    ensures Candidate(read, i) ==
              if i < 256 then 0xC000_0000 + 0x400 * (read(0xC000_0413) + 0x100 * read(0xC000_0414)) + 16 * i
              else 0xC00E_0000 + 16 * (i - 256)
    ensures CANDIDATES == 8448 && 0xC00E_0000 + 16 * (8447 - 256) == 0xC00F_FFF0
  {
  }

  /** What the search finds, address by address: the first root pointer in the 4 KiB of the EBDA, which starts at
      `e`, else the first from 0xC00E0000 to 0xC00FFFF0, and 0 exactly when there is none. */
  lemma FirstPlace(read: Bytes, r: nat, e: nat)
    requires r == 0 <==> NoneBefore(read, 0, CANDIDATES)
    requires r != 0 ==> exists i :: IsFirst(read, i, r)
    requires e == 0xC000_0000 + 0x400 * (read(0xC000_0413) + 0x100 * read(0xC000_0414))
    ensures r == 0 <==> forall a: nat | (e <= a <= e + 0xFF0 || 0xC00E_0000 <= a <= 0xC00F_FFF0) && a % 16 == 0 ::
                          !IsRsdp(read, a)
    ensures r != 0 ==> IsRsdp(read, r) && r % 16 == 0
    ensures r != 0 && e <= r <= e + 0xFF0 ==> forall a: nat | e <= a < r && a % 16 == 0 :: !IsRsdp(read, a)
    ensures r != 0 && !(e <= r <= e + 0xFF0) ==>
              && 0xC00E_0000 <= r <= 0xC00F_FFF0
              && forall a: nat | (e <= a <= e + 0xFF0 || 0xC00E_0000 <= a < r) && a % 16 == 0 :: !IsRsdp(read, a)
  {
    forall a: nat | (e <= a <= e + 0xFF0 || 0xC00E_0000 <= a <= 0xC00F_FFF0) && a % 16 == 0 && IsRsdp(read, a)
      ensures r != 0
      ensures if e <= a <= e + 0xFF0 then e <= r <= a else (e <= r <= e + 0xFF0 || 0xC00E_0000 <= r <= a)
    {
      var k := PlaceOf(read, a, e);
      assert IsRsdp(read, Candidate(read, k));
      if r != 0 {
        var i :| IsFirst(read, i, r);
        CandidatePlaces(read, i);
      }
    }
    if r != 0 {
      var i :| IsFirst(read, i, r);
      CandidatePlaces(read, i);
      CandidateAt(read, i);
    }
  }

  lemma PlaceOf(read: Bytes, a: nat, e: nat) returns (k: nat)
    requires e == 0xC000_0000 + 0x400 * (read(0xC000_0413) + 0x100 * read(0xC000_0414))
    requires (e <= a <= e + 0xFF0 || 0xC00E_0000 <= a <= 0xC00F_FFF0) && a % 16 == 0
    ensures k < CANDIDATES && Candidate(read, k) == a && (e <= a <= e + 0xFF0 ==> k < 256 && a == e + 16 * k)
  {
    assert e % 16 == 0;
    k := if e <= a <= e + 0xFF0 then (a - e) / 16 else 256 + (a - 0xC00E_0000) / 16;
    CandidatePlaces(read, k);
  }

  // ----- where the search reads -----

  /** The first k bytes are those of the signature. */
  predicate Starts(read: Bytes, a: nat, k: nat) {
    forall j | 0 <= j < k && j < 8 :: read(a + j) == SIGNATURE[j]
  }

  /** What the search reads of a candidate can be read: the signature as far as it agrees, one byte more, and
      the record when it agrees. */
  ghost predicate Needed(read: Bytes, mapped: nat -> bool, a: nat) {
    && (forall k: nat | k < 8 && Starts(read, a, k) :: mapped(a + k))
    && (Starts(read, a, 8) ==> mapped(a + 15) && Range(mapped, a, RecordLength(read, a)))
  }

  /** All the search reads, up to the first root pointer, can be read. */
  ghost predicate Searchable(read: Bytes, mapped: nat -> bool) {
    && Range(mapped, KERNEL_BASE + 0x413, 4)
    && forall i: nat | i < CANDIDATES && NoneBefore(read, 0, i) :: Needed(read, mapped, Candidate(read, i))
  }

  lemma SliceStarts(read: Bytes, a: nat)
    ensures Slice(read, a, 8) == SIGNATURE <==> Starts(read, a, 8)
  {
    forall j: nat | j < 8
      ensures |Slice(read, a, 8)| == 8 && Slice(read, a, 8)[j] == read(a + j)
    {
      SliceAt(read, a, 8, j);
    }
    assert |Slice(read, a, 8)| == 8 by { SliceAt(read, a, 8, 0); }
  }

  lemma AlikeStarts(read: Bytes, a: nat, literal: nat, k: nat)
    requires Starts(read, literal, 8) && k < 8 && Alike(read, a, literal, k)
    ensures Starts(read, a, k)
  {
    forall j | 0 <= j < k
      ensures read(a + j) == SIGNATURE[j]
    {
      assert SameAt(read, a, literal, j);
    }
  }

  // ----- which machines can be searched without a fault -----

  /** After boot an address in the kernel mapping can be read if it is below the kernel's end or in the page
      that shows the VGA frame, and outside the paging code's variables. */
  predicate Shown(L: Layout, a: nat) {
    a >= KERNEL_BASE &&
    var page := (a - KERNEL_BASE) / 0x1000;
    (page < L.end && page !in L.vars) || page == 1023
  }

  lemma ShownIsPlain(L: Layout, m: Memory, a: nat)
    requires L.Valid() && forall p: PageNo :: WalkPage(m, L.pd, p) == BootWalk(L, p)
    requires KERNEL_BASE <= a < KERNEL_BASE + 0x500_0000
    ensures Plain(m, L)(a) <==> Shown(L, a)
  {
    var page := (a - KERNEL_BASE) / 0x1000;
    KernelPageOf(a, page);
    assert BootWalk(L, 0xC_0000 + page).Some? <==> page < L.end || page == 1023;
    assert VGA_FRAME !in L.vars;
  }

  lemma KernelPageOf(a: nat, page: nat)
    requires KERNEL_BASE <= a < KERNEL_BASE + 0x500_0000 && page == (a - KERNEL_BASE) / 0x1000
    ensures a < 0x1_0000_0000 && PageOf(a) == 0xC_0000 + page
    ensures DirOf(PageOf(a)) == 768 + page / 1024 < 1023 && IdxOf(PageOf(a)) == page % 1024
  {
  }

  /** Candidates lie on 16-byte boundaries between 0xC0000000 and 80 MiB above. */
  lemma CandidateAt(read: Bytes, i: nat)
    requires i < CANDIDATES
    ensures Candidate(read, i) % 16 == 0
    ensures KERNEL_BASE <= Candidate(read, i) && Candidate(read, i) + 36 < KERNEL_BASE + 0x500_0000
  {
    var kib := read(KERNEL_BASE + 0x413) + 0x100 * read(KERNEL_BASE + 0x414);
    assert kib * 0x400 % 16 == 0;
  }

  /** What the search reads of EBDA candidate i is shown. */
  predicate CandidateShown(L: Layout, read: Bytes, a: nat) {
    Shown(L, a) && (Starts(read, a, 8) ==> Shown(L, a + RecordLength(read, a) - 1))
  }

  lemma SamePage16(x: nat, r: nat)
    requires x % 16 == 0 && r < 16
    ensures (x + r) / 0x1000 == x / 0x1000
  {
    assert x == 16 * (x / 16);
    assert (x + r) / 16 == x / 16;
    assert (x + r) / 0x1000 == (x + r) / 16 / 0x100 && x / 0x1000 == x / 16 / 0x100;
  }

  lemma ShownTogether(L: Layout, a: nat, b: nat)
    requires KERNEL_BASE <= a <= b < a + 16 && a % 16 == 0
    ensures Shown(L, a) <==> Shown(L, b)
  {
    SamePage16(a - KERNEL_BASE, b - a);
  }

  lemma ShownBetween(L: Layout, a: nat, b: nat, c: nat)
    requires KERNEL_BASE <= a <= b <= c < a + 36 && Shown(L, a) && Shown(L, c)
    ensures Shown(L, b)
  {
    assert (b - KERNEL_BASE) / 0x1000 == (a - KERNEL_BASE) / 0x1000 ||
           (b - KERNEL_BASE) / 0x1000 == (c - KERNEL_BASE) / 0x1000;
  }

  lemma NeededExactly(L: Layout, m: Memory, read: Bytes, i: nat)
    requires L.Valid() && (forall p: PageNo :: WalkPage(m, L.pd, p) == BootWalk(L, p)) && i < CANDIDATES
    ensures Needed(read, Plain(m, L), Candidate(read, i)) <==> CandidateShown(L, read, Candidate(read, i))
  {
    var a, mapped := Candidate(read, i), Plain(m, L);
    CandidateAt(read, i);
    forall b: nat | a <= b < a + 36
      ensures mapped(b) <==> Shown(L, b)
    {
      ShownIsPlain(L, m, b);
    }
    var n := RecordLength(read, a);
    if Needed(read, mapped, a) {
      assert Starts(read, a, 0) && mapped(a + 0);
      if Starts(read, a, 8) {
        assert mapped(a + n - 1);
      }
    }
    if CandidateShown(L, read, a) {
      CandidateNeeded(L, mapped, read, a, n);
    }
  }

  lemma CandidateNeeded(L: Layout, mapped: nat -> bool, read: Bytes, a: nat, n: nat)
    requires KERNEL_BASE <= a && a % 16 == 0 && n == RecordLength(read, a) && CandidateShown(L, read, a)
    requires forall b: nat | a <= b < a + 36 :: mapped(b) <==> Shown(L, b)
    ensures Needed(read, mapped, a)
  {
    forall b: nat | a <= b < a + 16
      ensures mapped(b)
    {
      ShownTogether(L, a, b);
    }
    if Starts(read, a, 8) {
      forall b: nat | a <= b < a + n
        ensures mapped(b)
      {
        ShownBetween(L, a, b, a + n - 1);
      }
    }
  }

  /** After boot the search faults nowhere if and only if each EBDA candidate before the first root pointer is
      shown, with its record if it has the signature. */
  lemma SearchableExactly(L: Layout, m: Memory)
    requires L.Valid() && forall p: PageNo :: WalkPage(m, L.pd, p) == BootWalk(L, p)
    ensures var read := View(m, L.pd);
            Searchable(read, Plain(m, L)) <==>
            forall i: nat | i < 0x100 && NoneBefore(read, 0, i) :: CandidateShown(L, read, Candidate(read, i))
  {
    var read := View(m, L.pd);
    forall i: nat | i < CANDIDATES
      ensures Needed(read, Plain(m, L), Candidate(read, i)) <==> CandidateShown(L, read, Candidate(read, i))
      ensures i >= 0x100 ==> CandidateShown(L, read, Candidate(read, i))
    {
      NeededExactly(L, m, read, i);
      if i >= 0x100 {
        LowCandidate(L, read, i);
      }
    }
    forall b: nat | KERNEL_BASE + 0x413 <= b < KERNEL_BASE + 0x417
      ensures Plain(m, L)(b)
    {
      ShownIsPlain(L, m, b);
    }
  }

  lemma LowCandidate(L: Layout, read: Bytes, i: nat)
    requires L.Valid() && 0x100 <= i < CANDIDATES
    ensures CandidateShown(L, read, Candidate(read, i))
  {
    LowShown(L, Candidate(read, i));
    LowShown(L, Candidate(read, i) + RecordLength(read, Candidate(read, i)) - 1);
  }

  lemma LowShown(L: Layout, a: nat)
    requires L.Valid() && KERNEL_BASE <= a < KERNEL_BASE + 0x10_1000
    ensures Shown(L, a)
  {
    assert (a - KERNEL_BASE) / 0x1000 <= 256;
  }

  /** The whole range that the EBDA loop may read is mapped if and only if it ends at the kernel's end; an image
      that reaches up to the VGA page extends to that page's end. */
  lemma EbdaRange(L: Layout, m: Memory)
    requires L.Valid() && forall p: PageNo :: WalkPage(m, L.pd, p) == BootWalk(L, p)
    ensures var e := Ebda(View(m, L.pd));
            (forall b: nat | e <= b < e + 0xFF0 + 36 :: Mapped(m, L.pd, b)) <==>
            e + 0xFF0 + 36 <= KERNEL_BASE + (if L.end == 1023 then 1024 else L.end) * 0x1000
  {
    var e, last := Ebda(View(m, L.pd)), (if L.end == 1023 then 1024 else L.end);
    EbdaAligned(View(m, L.pd));
    if e + 0xFF0 + 36 <= KERNEL_BASE + last * 0x1000 {
      forall b: nat | e <= b < e + 0xFF0 + 36
        ensures Mapped(m, L.pd, b)
      {
        MappedShown(L, m, b);
      }
    } else {
      var b := if e >= KERNEL_BASE + last * 0x1000 then EbdaBeyond(L, e, last) else KERNEL_BASE + last * 0x1000;
      MappedShown(L, m, b);
    }
  }

  lemma MappedShown(L: Layout, m: Memory, b: nat)
    requires L.Valid() && forall p: PageNo :: WalkPage(m, L.pd, p) == BootWalk(L, p)
    requires KERNEL_BASE <= b < KERNEL_BASE + 0x500_0000
    ensures var page := (b - KERNEL_BASE) / 0x1000;
            Mapped(m, L.pd, b) <==> page < L.end || page == 1023
  {
    KernelPageOf(b, (b - KERNEL_BASE) / 0x1000);
  }

  lemma EbdaAligned(read: Bytes)
    ensures Ebda(read) % 0x400 == 0 && KERNEL_BASE <= Ebda(read) <= KERNEL_BASE + 0xFFFF * 0x400
  {
  }

  /** An address in the EBDA range outside all mapped pages: the range is longer than a page. */
  function EbdaBeyond(L: Layout, e: nat, last: nat): (b: nat)
    requires L.Valid() && last == (if L.end == 1023 then 1024 else L.end) && e >= KERNEL_BASE + last * 0x1000
    ensures e <= b < e + 0xFF0 + 36 && var page := (b - KERNEL_BASE) / 0x1000; page >= last && page != 1023
  {
    if (e - KERNEL_BASE) / 0x1000 == 1023 then KERNEL_BASE + 0x40_0000 else e
  }

  /** `ACPI_version` and the search that sets it as it goes; `literal` is the address of the string
      "RSD PTR ". */
  class Search {
    const m: Machine
    const literal: nat
    var acpiVersion: bool
    ghost const read: Bytes           // memory as the program sees it
    ghost const mapped: nat -> bool   // the addresses read without a fault, outside the paging variables

    constructor (m: Machine, literal: nat)
      ensures this.m == m && this.literal == literal && !acpiVersion
      ensures read == View(m.mem, m.L.pd) && mapped == Plain(m.mem, m.L)
    {
      this.m := m;
      this.literal := literal;
      acpiVersion := false;
      read := View(m.mem, m.L.pd);
      mapped := Plain(m.mem, m.L);
    }

    /** Memory is as `read` says. */
    ghost predicate Ready()
      reads m
    {
      m.Shows(read, mapped)
    }

    /** The text "RSD PTR " is at `literal`. */
    ghost predicate HasLiteral() {
      Range(mapped, literal, 8) && Slice(read, literal, 8) == SIGNATURE
    }

    method DoChecksumRsdp(rsdp: nat) returns (ok: bool)
      requires m.Shows(read, mapped) && mapped(rsdp + 15) && Range(mapped, rsdp, RecordLength(read, rsdp))
      modifies this`acpiVersion, m`tlb, m`pdes
      ensures m.Shows(read, mapped)
      ensures acpiVersion == (read(rsdp + 15) != 0)
      ensures ok <==> Sum(read, rsdp, if read(rsdp + 15) == 0 then 20 else 36) % 256 == 0
    {
      var revision := m.Peek(rsdp + 15, read, mapped);
      acpiVersion := revision != 0;
      var sum := Checksum(rsdp, if acpiVersion then 36 else 20);
      return sum == 0;
    }

    /** The checksum loop, in an unsigned char. */
    method Checksum(rsdp: nat, size: nat) returns (sum: nat)
      requires m.Shows(read, mapped) && Range(mapped, rsdp, size)
      modifies m`tlb, m`pdes
      ensures m.Shows(read, mapped)
      ensures sum == Sum(read, rsdp, size) % 256
    {
      sum := 0;
      for i := 0 to size
        invariant m.Shows(read, mapped) && sum == ByteSum(read, rsdp, i)
      {
        var b := m.Peek(rsdp + i, read, mapped);
        sum := AddByte(sum, b);
      }
      SumOfBytes(read, rsdp, size);
    }

    /** One candidate: `strncmp`, then the checksum. */
    method Check(a: nat) returns (found: bool)
      requires Ready() && HasLiteral() && Needed(read, mapped, a)
      modifies this`acpiVersion, m`tlb, m`pdes
      ensures Ready()
      ensures found <==> IsRsdp(read, a)
      ensures found ==> acpiVersion == (read(a + 15) != 0)
    {
      TextEquals(read, a, literal, 8);
      SliceStarts(read, a);
      NeededByStrncmp(read, mapped, a, literal);
      var differs := Strncmp(m, a, literal, 8, read, mapped);
      if differs != 0 {
        return false;
      }
      found := DoChecksumRsdp(a);
    }

    /** Either of the two search loops, over the candidates c, 16 bytes apart; i is the number of the one found. */
    method Scan(base: nat, from: nat, to: nat, ghost c: seq<nat>) returns (r: nat, ghost i: nat)
      requires Ready() && HasLiteral() && SixteenApart(c, base + from) && base + from > 0
      requires from + 16 * |c| - 16 < to <= from + 16 * |c|
      requires AllNeeded(read, mapped, c)
      modifies this`acpiVersion, m`tlb, m`pdes
      ensures Ready() && i <= |c| && NoneOf(read, c, i)
      ensures r == 0 ==> i == |c|
      ensures r != 0 ==> HitAt(c, i, r) && acpiVersion == Revised(read, r)
    {
      var d := from;
      r, i := 0, 0;
      while d < to
        invariant Ready() && r == 0
        invariant i <= |c| && d == from + 16 * i && NoneOf(read, c, i)
      {
        var found := Try(base + d, c, i);
        if found {
          return base + d, i;
        }
        d, i := d + 0x10, i + 1;
      }
    }

    /** Candidate i, when none before it is a root pointer. */
    method Try(a: nat, ghost c: seq<nat>, ghost i: nat) returns (found: bool)
      requires Ready() && HasLiteral() && AllNeeded(read, mapped, c) && NoneOf(read, c, i) && i < |c| && a == c[i]
      modifies this`acpiVersion, m`tlb, m`pdes
      ensures Ready()
      ensures found ==> HitAt(c, i, a) && acpiVersion == Revised(read, a)
      ensures !found ==> NoneOf(read, c, i + 1)
    {
      found := Check(a);
      if !found {
        NoneMore(read, c, i);
      }
    }

    ghost predicate HitAt(c: seq<nat>, i: nat, r: nat) {
      i < |c| && r == c[i] && IsRsdp(read, r)
    }

    /** Either loop, as a search through the candidates `first` up to `first` + n. */
    method ScanRange(base: nat, from: nat, to: nat, ghost first: nat, ghost n: nat) returns (r: nat)
      requires Ready() && HasLiteral() && Searchable(read, mapped) && NoneBefore(read, 0, first)
      requires first + n <= CANDIDATES && base + from > 0 && from + 16 * n - 16 < to <= from + 16 * n
      requires SixteenApart(Candidates(read, first, n), base + from)
      modifies this`acpiVersion, m`tlb, m`pdes
      ensures Ready()
      ensures r == 0 <==> NoneBefore(read, 0, first + n)
      ensures r != 0 ==> acpiVersion == Revised(read, r) && exists i :: IsFirst(read, i, r)
    {
      ghost var c := Candidates(read, first, n);
      ghost var i;
      CandidatesNeeded(read, mapped, first, n, c);
      r, i := Scan(base, from, to, c);
      RangeResult(read, first, n, c, r, i);
    }

    /** The first root pointer, 0 exactly when there is none: first the 256 places in the EBDA, then those from
        0xC00E0000 to 0xC00FFFF0. Whatever candidates failed on the way, `ACPI_version` ends up describing the
        record returned. */
    method FindRsdp() returns (r: nat)
      requires Ready() && HasLiteral() && Searchable(read, mapped)
      modifies this`acpiVersion, m`tlb, m`pdes
      ensures Ready()
      ensures r == 0 <==> NoneBefore(read, 0, CANDIDATES)
      ensures r != 0 ==> acpiVersion == (read(r + 15) != 0) && exists i :: IsFirst(read, i, r)
      ensures var e := 0xC000_0000 + 0x400 * (read(0xC000_0413) + 0x100 * read(0xC000_0414));
              && (r == 0 <==> forall a: nat | (e <= a <= e + 0xFF0 || 0xC00E_0000 <= a <= 0xC00F_FFF0) && a % 16 == 0 ::
                                !IsRsdp(read, a))
              && (r != 0 ==> IsRsdp(read, r))
              && (r != 0 && e <= r <= e + 0xFF0 ==> forall a: nat | e <= a < r && a % 16 == 0 :: !IsRsdp(read, a))
              && (r != 0 && !(e <= r <= e + 0xFF0) ==>
                    && 0xC00E_0000 <= r <= 0xC00F_FFF0
                    && forall a: nat | (e <= a <= e + 0xFF0 || 0xC00E_0000 <= a < r) && a % 16 == 0 ::
                         !IsRsdp(read, a))
    {
      r := SearchPlaces();
      FirstPlace(read, r, 0xC000_0000 + 0x400 * (read(0xC000_0413) + 0x100 * read(0xC000_0414)));
    }

    method SearchPlaces() returns (r: nat)
      requires Ready() && HasLiteral() && Searchable(read, mapped)
      modifies this`acpiVersion, m`tlb, m`pdes
      ensures Ready()
      ensures r == 0 <==> NoneBefore(read, 0, CANDIDATES)
      ensures r != 0 ==> acpiVersion == Revised(read, r) && exists i :: IsFirst(read, i, r)
    {
      var kib := ReadKib();
      EbdaStart(read);
      RangesApart(read);
      r := ScanRange(Shl(kib, 10) + KERNEL_BASE, 0, 0x1000, 0, 0x100);
      if r == 0 {
        r := ScanRange(KERNEL_BASE, 0xE_0000, 0xF_FFFF, 0x100, 0x2000);
      } else {
        FirstOnly(read, r);
      }
    }

    /** `read_word_at_address`: a 32-bit load, of which 16 bits are kept. */
    method ReadKib() returns (kib: nat)
      requires m.Shows(read, mapped) && Range(mapped, KERNEL_BASE + 0x413, 4)
      modifies m`tlb, m`pdes
      ensures m.Shows(read, mapped)
      ensures kib == read(KERNEL_BASE + 0x413) + 0x100 * read(KERNEL_BASE + 0x414)
    {
      var w := m.PeekWord(KERNEL_BASE + 0x413, read, mapped);
      kib := w % 0x1_0000;
      LowHalf(read, KERNEL_BASE + 0x413);
    }

    /** The root table's physical address, read from the field that `init_rsdt` will lay out by. */
    method FindRsdt(rsdp: nat) returns (r: Word)
      requires m.Shows(read, mapped) && Range(mapped, rsdp, RecordLength(read, rsdp)) && rsdp % 16 == 0
      modifies m`tlb, m`pdes
      ensures m.Shows(read, mapped)
      ensures r == RootAddress(read, rsdp)
      ensures r == if read(rsdp + 15) == 0
                then read(rsdp + 16) + 0x100 * read(rsdp + 17) + 0x1_0000 * read(rsdp + 18)
                     + 0x100_0000 * read(rsdp + 19)
                else read(rsdp + 24) + 0x100 * read(rsdp + 25) + 0x1_0000 * read(rsdp + 26)
                     + 0x100_0000 * read(rsdp + 27)
    {
      RootAddressBytes(read, rsdp);
      var revision := m.Peek(rsdp + 15, read, mapped);
      AlignedRecord(rsdp);
      if revision == 0 {
        r := m.PeekWord(rsdp + 16, read, mapped);
      } else {
        r := m.PeekWord(rsdp + 24, read, mapped);
      }
    }
  }

  /** `strncmp` against the literal reads no more than is needed. */
  lemma NeededByStrncmp(read: Bytes, mapped: nat -> bool, a: nat, literal: nat)
    requires Needed(read, mapped, a) && Range(mapped, literal, 8) && Slice(read, literal, 8) == SIGNATURE
    ensures Compared(read, mapped, a, literal, 8)
  {
    SliceStarts(read, literal);
    forall k: nat | k < 8 && Alike(read, a, literal, k)
      ensures mapped(a + k) && mapped(literal + k)
    {
      AlikeStarts(read, a, literal, k);
    }
  }

  /** Candidates `first` up to `first` + n. */
  function Candidates(read: Bytes, first: nat, n: nat): (c: seq<nat>)
    ensures |c| == n
  {
    seq<nat>(n, i requires 0 <= i < n => Candidate(read, first + i))
  }

  predicate SixteenApart(c: seq<nat>, start: nat) {
    forall i | 0 <= i < |c| :: c[i] == start + 16 * i
  }

  /** None of the first n is a root pointer. */
  ghost predicate NoneOf(read: Bytes, c: seq<nat>, n: nat) {
    n <= |c| && forall i | 0 <= i < n :: !IsRsdp(read, c[i])
  }

  /** Of each candidate that is reached, all that is read can be read. */
  ghost predicate AllNeeded(read: Bytes, mapped: nat -> bool, c: seq<nat>) {
    forall i: nat | i < |c| && NoneOf(read, c, i) :: Needed(read, mapped, c[i])
  }

  lemma NoneMore(read: Bytes, c: seq<nat>, n: nat)
    requires NoneOf(read, c, n) && n < |c| && !IsRsdp(read, c[n])
    ensures NoneOf(read, c, n + 1)
  {
  }

  lemma NoneOfIs(read: Bytes, first: nat, n: nat, c: seq<nat>, i: nat)
    requires i <= n && c == Candidates(read, first, n)
    ensures NoneOf(read, c, i) <==> NoneBefore(read, first, first + i)
  {
    assert forall j | 0 <= j < n :: c[j] == Candidate(read, first + j);
    if NoneOf(read, c, i) {
      forall j: nat | first <= j < first + i
        ensures !IsRsdp(read, Candidate(read, j))
      {
        assert c[j - first] == Candidate(read, j);
      }
    }
  }

  lemma NoneJoined(read: Bytes, first: nat, i: nat)
    requires NoneBefore(read, 0, first) && first <= i
    ensures NoneBefore(read, first, i) <==> NoneBefore(read, 0, i)
  {
  }

  lemma CandidatesNeeded(read: Bytes, mapped: nat -> bool, first: nat, n: nat, c: seq<nat>)
    requires Searchable(read, mapped) && NoneBefore(read, 0, first) && first + n <= CANDIDATES
    requires c == Candidates(read, first, n)
    ensures AllNeeded(read, mapped, c)
  {
    forall i: nat | i < |c| && NoneOf(read, c, i)
      ensures Needed(read, mapped, c[i])
    {
      NoneOfIs(read, first, n, c, i);
      NoneJoined(read, first, first + i);
      assert c[i] == Candidate(read, first + i);
    }
  }

  /** What the loop over a range found, said of all candidates. */
  lemma RangeResult(read: Bytes, first: nat, n: nat, c: seq<nat>, r: nat, i: nat)
    requires NoneBefore(read, 0, first) && first + n <= CANDIDATES && c == Candidates(read, first, n)
    requires i <= |c| && NoneOf(read, c, i)
    requires if r == 0 then i == |c| else i < |c| && r == c[i] && IsRsdp(read, r)
    ensures r == 0 <==> NoneBefore(read, 0, first + n)
    ensures r != 0 ==> IsFirst(read, first + i, r)
  {
    NoneOfIs(read, first, n, c, i);
    NoneJoined(read, first, first + i);
    assert i < n ==> c[i] == Candidate(read, first + i);
  }

  lemma RangesApart(read: Bytes)
    ensures SixteenApart(Candidates(read, 0, 0x100), Ebda(read))
    ensures SixteenApart(Candidates(read, 0x100, 0x2000), KERNEL_BASE + 0xE_0000)
  {
  }

  lemma FirstOnly(read: Bytes, r: nat)
    requires exists i :: IsFirst(read, i, r)
    ensures !NoneBefore(read, 0, CANDIDATES)
  {
    var i :| IsFirst(read, i, r);
  }

  /** `sum += b` on an unsigned char. */
  function AddByte(sum: nat, b: Byte): nat { (sum + b) % 256 }

  function ByteSum(read: Bytes, a: nat, n: nat): nat
    decreases n, a
  {
    if n == 0 then 0 else AddByte(ByteSum(read, a, n - 1), read(a + n - 1))
  }

  lemma {:induction false} SumOfBytes(read: Bytes, a: nat, n: nat)
    ensures ByteSum(read, a, n) == Sum(read, a, n) % 256
    decreases n
  {
    if n > 0 {
      SumOfBytes(read, a, n - 1);
      AddModulo(Sum(read, a, n - 1), read(a + n - 1));
    }
  }

  lemma AddModulo(x: nat, y: nat)
    ensures (x % 256 + y) % 256 == (x + y) % 256
  {
  }

  lemma LowHalf(read: Bytes, a: nat)
    ensures Word32(read, a) % 0x1_0000 == read(a) + 0x100 * read(a + 1)
  {
  }

  /** No field of a record on a 16-byte boundary crosses a page end. */
  lemma AlignedRecord(rsdp: nat)
    requires rsdp % 16 == 0
    ensures (rsdp + 16) % 0x1000 <= 0xFFC && (rsdp + 24) % 0x1000 <= 0xFFC
  {
  }

  lemma EbdaStart(read: Bytes)
    ensures Shl(read(KERNEL_BASE + 0x413) + 0x100 * read(KERNEL_BASE + 0x414), 10) + KERNEL_BASE == Ebda(read)
  {
    ShlIsMul(read(KERNEL_BASE + 0x413) + 0x100 * read(KERNEL_BASE + 0x414), 10);
    assert Pow2(10) == 0x400;
  }
}
