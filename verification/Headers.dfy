/** `find_by_header`: the search for a table by its signature, behind rewritten pointers. */
module Headers {
  import opened Hardware
  import opened Tables
  import opened Machine
  import opened Rewriting
  import opened Acpi
  import opened Libc
  import K = Kernel

  /** The root table as the search finds it: its words are as given, and behind each four bytes can be read. */
  ghost predicate Listed(m: Memory, L: Layout, table: Word, o: nat, f: FrameNo, words: seq<Word>, mapped: nat -> bool) {
    && Array(m, L, table, o, f, HEADER + Slot(false, |words|))
    && forall e {:trigger Entry(m[f], o, words, e, mapped)} | 0 <= e < |words| :: Entry(m[f], o, words, e, mapped)
  }

  ghost predicate Entry(fr: Frame, o: nat, words: seq<Word>, e: nat, mapped: nat -> bool) {
    && e < |words| && o + HEADER + 4 * e <= 0xFFC
    && Pointer(fr, o + HEADER, false, e) == words[e] != 0 && Range(mapped, words[e], 4)
  }

  /** The four bytes behind an address are the signature. */
  predicate Carries(read: Bytes, va: nat, head: seq<Byte>) { Slice(read, va, 4) == head }

  /** Word e is the address, and the first that carries the signature. */
  ghost predicate FirstCarrying(read: Bytes, words: seq<Word>, head: seq<Byte>, e: nat, location: Word) {
    && e < |words| && location == words[e] && Carries(read, words[e], head)
    && NoneCarries(read, words, head, e)
  }

  ghost predicate NoneCarries(read: Bytes, words: seq<Word>, head: seq<Byte>, n: nat) {
    n <= |words| && forall k | 0 <= k < n :: !Carries(read, words[k], head)
  }

  lemma NoneMore(read: Bytes, words: seq<Word>, head: seq<Byte>, n: nat)
    requires NoneCarries(read, words, head, n) && n < |words| && !Carries(read, words[n], head)
    ensures NoneCarries(read, words, head, n + 1)
  {
  }

  /** The first address in the table behind which the signature `head` is read; 0 exactly when there is none, or
      when the root table is an XSDT, for which the search is not implemented. */
  method FindByHeader(m: Machine, table: Word, acpiVersion: bool, head: seq<Byte>, ghost o: nat, ghost f: FrameNo,
                      ghost words: seq<Word>, ghost read: Bytes, ghost mapped: nat -> bool)
    returns (location: Word)
    requires |head| >= 4 && m.Shows(read, mapped)
    requires RootTable(m.mem, m.L, f, o, false, |words|) && Listed(m.mem, m.L, table, o, f, words, mapped)
    modifies m`tlb, m`pdes
    ensures m.Shows(read, mapped)
    ensures acpiVersion ==> location == 0
    ensures !acpiVersion ==> (location == 0 <==> NoneCarries(read, words, head[..4], |words|))
    ensures location != 0 ==> exists e :: FirstCarrying(read, words, head[..4], e, location)
  {
    if acpiVersion {
      return 0;
    }
    var entries := ReadEntries(m, table, false, o, f, |words|);
    ghost var e;
    location, e := SearchTables(m, table, entries, head, o, f, words, read, mapped);
    assert location != 0 ==> FirstCarrying(read, words, head[..4], e, location);
  }

  method SearchTables(m: Machine, table: Word, entries: nat, head: seq<Byte>, ghost o: nat, ghost f: FrameNo,
                      ghost words: seq<Word>, ghost read: Bytes, ghost mapped: nat -> bool)
    returns (location: Word, ghost e: nat)
    requires |head| >= 4 && entries == |words| && m.Shows(read, mapped)
    requires Listed(m.mem, m.L, table, o, f, words, mapped)
    modifies m`tlb, m`pdes
    ensures m.Shows(read, mapped)
    ensures location == 0 <==> NoneCarries(read, words, head[..4], |words|)
    ensures location != 0 ==> FirstCarrying(read, words, head[..4], e, location)
  {
    location, e := 0, 0;
    var entry := 0;
    while entry < entries
      invariant entry <= entries && location == 0 && m.Shows(read, mapped)
      invariant NoneCarries(read, words, head[..4], entry)
    {
      var sdt, found := TableCarries(m, table, entry, head, o, f, words, read, mapped);
      if found {
        location, e := sdt, entry;
        break;
      }
      NoneMore(read, words, head[..4], entry);
      entry := entry + 1;
    }
  }

  method TableCarries(m: Machine, table: Word, entry: nat, head: seq<Byte>, ghost o: nat, ghost f: FrameNo,
                      ghost words: seq<Word>, ghost read: Bytes, ghost mapped: nat -> bool)
    returns (sdt: Word, found: bool)
    requires |head| >= 4 && entry < |words| && m.Shows(read, mapped)
    requires Listed(m.mem, m.L, table, o, f, words, mapped)
    modifies m`tlb, m`pdes
    ensures m.Shows(read, mapped)
    ensures sdt == words[entry] != 0 && found == Carries(read, words[entry], head[..4])
  {
    assert Entry(m.mem[f], o, words, entry, mapped);
    ghost var rd := o + HEADER + 4 * entry;
    WordOfEntry(m.mem[f], o, words, entry, mapped, rd);
    sdt := ReadAt(m, table, HEADER + 4 * entry, o, f, HEADER + Slot(false, |words|), rd);
    var signature := PeekFour(m, sdt, read, mapped);
    var differs := Memcmp(signature, head, 4);
    assert signature[..4] == signature;
    found := differs == 0;
  }

  lemma WordOfEntry(fr: Frame, o: nat, words: seq<Word>, e: nat, mapped: nat -> bool, rd: nat)
    requires Entry(fr, o, words, e, mapped) && rd == o + HEADER + 4 * e
    ensures WordAt(fr, rd) == words[e] != 0 && Range(mapped, words[e], 4)
  {
  }

  method PeekFour(m: Machine, va: Word, ghost read: Bytes, ghost mapped: nat -> bool) returns (s: seq<Byte>)
    requires m.Shows(read, mapped) && Range(mapped, va, 4)
    modifies m`tlb, m`pdes
    ensures m.Shows(read, mapped)
    ensures |s| == 4 && s == Slice(read, va, 4)
  {
    s := [];
    for i := 0 to 4
      invariant m.Shows(read, mapped) && |s| == i && forall k | 0 <= k < i :: s[k] == read(va + k)
    {
      var b := m.Peek(va + i, read, mapped);
      s := s + [b];
    }
    FourBytes(read, va, s);
  }

  lemma FourBytes(read: Bytes, va: nat, s: seq<Byte>)
    requires |s| == 4 && forall k | 0 <= k < 4 :: s[k] == read(va + k)
    ensures s == Slice(read, va, 4)
  {
    assert |Slice(read, va, 4)| == 4 by { SliceAt(read, va, 4, 0); }
    forall k | 0 <= k < |s|
      ensures Slice(read, va, 4)[k] == s[k]
    {
      SliceAt(read, va, 4, k);
    }
  }

  // ----- what the bytes are -----

  /** The four signature bytes of the table at a physical address, when they do not cross its page end. */
  function Signature(m: Memory, phys: Word): seq<Byte>
    requires !Crosses(phys)
  {
    var fr, o := m[FrameOf(phys)], phys % 0x1000;
    [ByteAt(fr, o), ByteAt(fr, o + 1), ByteAt(fr, o + 2), ByteAt(fr, o + 3)]
  }

  /** Behind an address that leads to a table whose signature does not cross its page end, the table's own
      signature is read. */
  lemma SeesSignature(m: Memory, L: Layout, va: Word, phys: Word)
    requires Translate(m, L.pd, va) == Some(phys) && !Crosses(phys)
    ensures Slice(View(m, L.pd), va, 4) == Signature(m, phys)
  {
    TranslateParts(m, L, va, phys);
    var signature := Signature(m, phys);
    forall k | 0 <= k < |signature|
      ensures signature[k] == View(m, L.pd)(va + k)
    {
      NextByte(va, k);
    }
    FourBytes(View(m, L.pd), va, signature);
  }

  lemma TranslateParts(m: Memory, L: Layout, va: Word, phys: Word)
    requires Translate(m, L.pd, va) == Some(phys)
    ensures va % 0x1000 == phys % 0x1000
    ensures WalkPage(m, L.pd, PageOf(va)).Some? && WalkPage(m, L.pd, PageOf(va)).value.frame == FrameOf(phys)
  {
    var leaf := WalkPage(m, L.pd, PageOf(va)).value;
    assert phys == leaf.frame * 0x1000 + va % 0x1000;
  }
}
