/** The memory and string functions of the kernel's C library. */
module Libc {
  import opened Hardware
  import opened Machine

  // ----- ordering of byte strings -----

  /** Lexicographic order; a proper prefix comes first. */
  predicate Less(a: seq<Byte>, b: seq<Byte>) {
    b != [] && (a == [] || a[0] < b[0] || (a[0] == b[0] && Less(a[1..], b[1..])))
  }

  /** The C string at s, cut off after n bytes. */
  function CString(m: Bytes, s: nat, n: nat): seq<Byte>
    decreases n, s
  {
    if n == 0 || m(s) == 0 then [] else [m(s)] + CString(m, s + 1, n - 1)
  }

  /** The n bytes at a. */
  function Slice(m: Bytes, a: nat, n: nat): seq<Byte>
    decreases n, a
  {
    if n == 0 then [] else [m(a)] + Slice(m, a + 1, n - 1)
  }

  lemma {:induction false} CStringIsPrefix(m: Bytes, a: nat, n: nat)
    ensures |Slice(m, a, n)| == n && CString(m, a, n) <= Slice(m, a, n)
    ensures 0 !in Slice(m, a, n) ==> CString(m, a, n) == Slice(m, a, n)
    decreases n
  {
    if n > 0 {
      CStringIsPrefix(m, a + 1, n - 1);
    }
  }

  lemma {:induction false} SliceAt(read: Bytes, a: nat, n: nat, k: nat)
    requires k < n
    ensures |Slice(read, a, n)| == n && Slice(read, a, n)[k] == read(a + k)
    ensures Slice(read, a, n)[k..] == Slice(read, a + k, n - k)
    decreases n
  {
    if k > 0 {
      SliceAt(read, a + 1, n - 1, k - 1);
      assert Slice(read, a, n)[k..] == Slice(read, a + 1, n - 1)[k - 1..];
    } else {
      CStringIsPrefix(read, a, n);
    }
  }

  /** Against a text without NUL, `strncmp` over its length compares bytes. */
  lemma TextEquals(m: Bytes, a: nat, p: nat, n: nat)
    requires 0 !in Slice(m, p, n)
    ensures CString(m, a, n) == CString(m, p, n) <==> Slice(m, a, n) == Slice(m, p, n)
  {
    CStringIsPrefix(m, a, n);
    CStringIsPrefix(m, p, n);
  }

  lemma {:induction false} LessAfterPrefix(a: seq<Byte>, b: seq<Byte>, k: nat)
    requires k <= |a| && k <= |b| && a[..k] == b[..k]
    ensures Less(a, b) <==> Less(a[k..], b[k..])
  {
    if k > 0 {
      assert a[0] == a[..k][0] == b[0];
      assert a[1..][..k - 1] == a[..k][1..] == b[1..][..k - 1];
      assert a[1..][k - 1..] == a[k..] && b[1..][k - 1..] == b[k..];
      LessAfterPrefix(a[1..], b[1..], k - 1);
    }
  }

  lemma {:induction false} LessIrreflexive(a: seq<Byte>)
    ensures !Less(a, a)
  {
    if a != [] { LessIrreflexive(a[1..]); }
  }

  predicate SameAt(read: Bytes, s1: nat, s2: nat, j: nat) {
    read(s1 + j) == read(s2 + j) != 0
  }

  /** The two strings agree, and have not ended, for k bytes. */
  predicate Alike(read: Bytes, s1: nat, s2: nat, k: nat) {
    forall j | 0 <= j < k :: SameAt(read, s1, s2, j)
  }

  /** What a comparison of at most n bytes reads can be read. */
  ghost predicate Compared(read: Bytes, mapped: nat -> bool, s1: nat, s2: nat, n: nat) {
    forall k: nat | k < n && Alike(read, s1, s2, k) :: mapped(s1 + k) && mapped(s2 + k)
  }

  lemma ComparedAt(read: Bytes, mapped: nat -> bool, s1: nat, s2: nat, n: nat, k: nat)
    requires Compared(read, mapped, s1, s2, n) && k < n && Alike(read, s1, s2, k)
    ensures mapped(s1 + k) && mapped(s2 + k)
  {
  }

  lemma AlikeMore(read: Bytes, s1: nat, s2: nat, k: nat)
    requires Alike(read, s1, s2, k)
    ensures Alike(read, s1, s2, k + 1) <==> SameAt(read, s1, s2, k)
  {
  }

  /** `strncmp` on the running machine, where `read` is memory as the program sees it. No byte behind
      the first difference or NUL is read. The sign of the answer is the order of the two strings cut
      off after n bytes, and zero means they are equal. */
  method Strncmp(m: Machine, s1: nat, s2: nat, n: nat, ghost read: Bytes, ghost mapped: nat -> bool) returns (r: int)
    requires m.Shows(read, mapped)
    requires Compared(read, mapped, s1, s2, n)
    modifies m`tlb, m`pdes
    ensures m.Shows(read, mapped)
    ensures r == 0 <==> CString(read, s1, n) == CString(read, s2, n)
    ensures r < 0 <==> Less(CString(read, s1, n), CString(read, s2, n))
    ensures -255 <= r <= 255
  {
    var k: nat, c1: int, c2: int := 0, 0, 0;
    while k != n
      invariant k <= n && m.Shows(read, mapped) && Alike(read, s1, s2, k)
    {
      ComparedAt(read, mapped, s1, s2, n, k);
      c1, c2 := PeekBoth(m, s1, s2, k, read, mapped);
      AlikeMore(read, s1, s2, k);
      if c1 == 0 || c2 == 0 || c1 != c2 {
        break;
      }
      k := k + 1;
    }
    StopDecides(read, s1, s2, n, k);
    return if k == n then 0 else c1 - c2;
  }

  /** Where the loop stops, the comparison is decided. */
  lemma StopDecides(read: Bytes, s1: nat, s2: nat, n: nat, k: nat)
    requires k <= n && Alike(read, s1, s2, k)
    requires k < n ==> !SameAt(read, s1, s2, k)
    ensures var x, y := CString(read, s1, n), CString(read, s2, n);
            && (x == y <==> k == n || read(s1 + k) == read(s2 + k))
            && (Less(x, y) <==> k < n && read(s1 + k) < read(s2 + k))
  {
    StillUndecided(read, s1, s2, n, k);
    if k < n {
      LastByte(read, s1 + k, s2 + k, n - k);
    }
  }

  method PeekBoth(m: Machine, s1: nat, s2: nat, k: nat, ghost read: Bytes, ghost mapped: nat -> bool)
    returns (c1: int, c2: int)
    requires m.Shows(read, mapped) && mapped(s1 + k) && mapped(s2 + k)
    modifies m`tlb, m`pdes
    ensures m.Shows(read, mapped)
    ensures c1 == read(s1 + k) && c2 == read(s2 + k)
  {
    c1 := m.Peek(s1 + k, read, mapped);
    c2 := m.Peek(s2 + k, read, mapped);
  }

  /** Equality and order of the two strings are those of what is left of them behind k bytes. */
  ghost predicate Undecided(read: Bytes, s1: nat, s2: nat, n: nat, k: nat)
    requires k <= n
  {
    var x, y := CString(read, s1 + k, n - k), CString(read, s2 + k, n - k);
    && (CString(read, s1, n) == CString(read, s2, n) <==> x == y)
    && (Less(CString(read, s1, n), CString(read, s2, n)) <==> Less(x, y))
  }

  lemma SameByte(read: Bytes, s1: nat, s2: nat, n: nat, k: nat)
    requires k < n && SameAt(read, s1, s2, k) && Undecided(read, s1, s2, n, k)
    ensures Undecided(read, s1, s2, n, k + 1)
  {
    var x, y := CString(read, s1 + k, n - k), CString(read, s2 + k, n - k);
    assert x[1..] == CString(read, s1 + k + 1, n - k - 1) && y[1..] == CString(read, s2 + k + 1, n - k - 1);
    assert x == [read(s1 + k)] + x[1..] && y == [read(s2 + k)] + y[1..];
  }

  lemma {:induction false} StillUndecided(read: Bytes, s1: nat, s2: nat, n: nat, k: nat)
    requires k <= n && Alike(read, s1, s2, k)
    ensures Undecided(read, s1, s2, n, k)
    decreases k
  {
    if k > 0 {
      StillUndecided(read, s1, s2, n, k - 1);
      assert SameAt(read, s1, s2, k - 1);
      SameByte(read, s1, s2, n, k - 1);
    }
  }

  lemma LastByte(read: Bytes, p: nat, q: nat, n: nat)
    requires n > 0 && (read(p) == 0 || read(q) == 0 || read(p) != read(q))
    ensures CString(read, p, n) == CString(read, q, n) <==> read(p) == read(q)
    ensures Less(CString(read, p, n), CString(read, q, n)) <==> read(p) < read(q)
  {
    var x, y := CString(read, p, n), CString(read, q, n);
    assert read(p) != 0 ==> x[0] == read(p);
    assert read(q) != 0 ==> y[0] == read(q);
  }

  method Memcmp(a: seq<Byte>, b: seq<Byte>, size: nat) returns (r: int)
    requires size <= |a| && size <= |b|
    ensures r == 0 <==> a[..size] == b[..size]
    ensures r == -1 <==> Less(a[..size], b[..size])
    ensures r == -1 <==> exists k :: 0 <= k < size && a[..k] == b[..k] && a[k] < b[k]
    ensures r == 0 || r == -1 || r == 1
  {
    for i := 0 to size
      invariant a[..i] == b[..i]
    {
      if a[i] != b[i] {
        assert a[..size][..i] == a[..i] == b[..size][..i];
        assert a[..size][i..][0] == a[i] && b[..size][i..][0] == b[i];
        LessAfterPrefix(a[..size], b[..size], i);
        assert a[..size][i] != b[..size][i];
      }
      if a[i] < b[i] {
        return -1;
      } else if b[i] < a[i] {
        return 1;
      }
    }
    LessIrreflexive(a[..size]);
    return 0;
  }

  /** Where the C strings at s1 and s2, cut off after n bytes, first differ: up to there they have the same bytes,
      none of them NUL. */
  ghost predicate DifferAt(read: Bytes, s1: nat, s2: nat, n: nat, k: nat) {
    k < n && read(s1 + k) != read(s2 + k) && forall j: nat | j < k :: SameAt(read, s1, s2, j)
  }

  /** Equality and order of C strings byte by byte: they are equal if and only if they differ nowhere, and where
      they differ first, the smaller byte, perhaps the NUL, belongs to the smaller string. */
  lemma CStringOrder(read: Bytes, s1: nat, s2: nat, n: nat)
    ensures CString(read, s1, n) == CString(read, s2, n) <==> forall k: nat :: !DifferAt(read, s1, s2, n, k)
    ensures Less(CString(read, s1, n), CString(read, s2, n)) <==>
              exists k: nat :: DifferAt(read, s1, s2, n, k) && read(s1 + k) < read(s2 + k)
  {
    forall k: nat | DifferAt(read, s1, s2, n, k)
      ensures CString(read, s1, n) != CString(read, s2, n)
      ensures Less(CString(read, s1, n), CString(read, s2, n)) <==> read(s1 + k) < read(s2 + k)
    {
      DifferenceDecides(read, s1, s2, n, k);
    }
    if CString(read, s1, n) != CString(read, s2, n) {
      var k := FirstDifference(read, s1, s2, n);
    } else {
      LessIrreflexive(CString(read, s1, n));
    }
  }

  lemma DifferenceDecides(read: Bytes, s1: nat, s2: nat, n: nat, k: nat)
    requires DifferAt(read, s1, s2, n, k)
    ensures CString(read, s1, n) != CString(read, s2, n)
    ensures Less(CString(read, s1, n), CString(read, s2, n)) <==> read(s1 + k) < read(s2 + k)
  {
    StillUndecided(read, s1, s2, n, k);
    LastByte(read, s1 + k, s2 + k, n - k);
  }

  lemma {:induction false} FirstDifference(read: Bytes, s1: nat, s2: nat, n: nat) returns (k: nat)
    requires CString(read, s1, n) != CString(read, s2, n)
    ensures DifferAt(read, s1, s2, n, k)
    decreases n
  {
    if read(s1) != read(s2) {
      k := 0;
    } else {
      var k' := FirstDifference(read, s1 + 1, s2 + 1, n - 1);
      k := k' + 1;
      assert read(s1 + k) == read(s1 + 1 + k') && read(s2 + k) == read(s2 + 1 + k');
      forall j: nat | j < k
        ensures SameAt(read, s1, s2, j)
      {
        if j > 0 {
          assert SameAt(read, s1 + 1, s2 + 1, j - 1);
          assert s1 + 1 + (j - 1) == s1 + j && s2 + 1 + (j - 1) == s2 + j;
        }
      }
    }
  }

  /** Byte k of memory when the destination bytes lo to hi have been filled from the source. */
  ghost function Moved(was: seq<Byte>, dst: nat, src: nat, lo: nat, hi: nat, k: nat): Byte
    requires k < |was| && dst <= lo && hi <= |was| && src + hi <= |was| + dst
  {
    if lo <= k < hi then was[src + (k - dst)] else was[k]
  }

  /** Copying within one memory, whatever the overlap: the destination gets what the source held
      before the call, everything else keeps its value. */
  method Memmove(mem: array<Byte>, dst: nat, src: nat, size: nat) returns (r: nat)
    requires dst + size <= mem.Length && src + size <= mem.Length
    modifies mem
    ensures r == dst
    ensures mem[..] == old(mem[..dst]) + old(mem[src..src + size]) + old(mem[dst + size..])
  {
    ghost var was := mem[..];
    if dst < src {
      for i := 0 to size
        invariant forall k: nat | k < mem.Length :: mem[k] == Moved(was, dst, src, dst, dst + i, k)
      {
        assert mem[src + i] == was[src + i];
        mem[dst + i] := mem[src + i];
      }
    } else {
      var i: nat := size;
      while i != 0
        invariant i <= size
        invariant forall k: nat | k < mem.Length :: mem[k] == Moved(was, dst, src, dst + i, dst + size, k)
      {
        assert mem[src + i - 1] == was[src + i - 1];
        mem[dst + i - 1] := mem[src + i - 1];
        i := i - 1;
      }
    }
    AllMoved(was, mem[..], dst, src, size);
    return dst;
  }

  lemma AllMoved(was: seq<Byte>, now: seq<Byte>, dst: nat, src: nat, size: nat)
    requires |was| == |now| && dst + size <= |was| && src + size <= |was|
    requires forall k: nat | k < |now| :: now[k] == Moved(was, dst, src, dst, dst + size, k)
    ensures now == was[..dst] + was[src..src + size] + was[dst + size..]
  {
  }
}
