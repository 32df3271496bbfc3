/** The index of virtual pages behind `find_free_virtaddr`: one bit per page, 32 to a word,
    the highest bit of a word standing for its first page. */
module Bitmap {
  import opened Bits
  import opened Hardware

  type PageIndex = b: seq<Word> | |b| == 0x8000 witness seq(0x8000, _ => 0)

  const FIRST_PAGE := 768 * 1024
  const PAGES := 0x10_0000

  predicate Taken(bits: PageIndex, p: PageNo) {
    TopBit(bits[p / 32], 32, p % 32)
  }

  function Mark(bits: PageIndex, p: PageNo): PageIndex {
    Pow2Grows(31 - p % 32, 32);
    WordRange();
    OrBound(bits[p / 32], Pow2(31 - p % 32), 32);
    bits[p / 32 := Or(bits[p / 32], Pow2(31 - p % 32))]
  }

  /** The lowest clear page from p on, or the number of pages when there is none. */
  function FirstFree(bits: PageIndex, p: nat): (r: nat)
    requires p <= PAGES
    ensures p <= r <= PAGES
    ensures forall q: PageNo | p <= q < r :: Taken(bits, q)
    ensures r < PAGES ==> !Taken(bits, r)
    decreases PAGES - p, |bits|
  {
    if p == PAGES || !Taken(bits, p) then p else FirstFree(bits, p + 1)
  }

  /** The allocator's state: the bits and the resume hint `cur_virtaddr_idx`, a word number. */
  datatype Allocator = Allocator(bits: PageIndex, hint: nat) {

    /** Everything between the first kernel page and the hint is taken. */
    ghost predicate Valid() {
      && FIRST_PAGE / 32 <= hint < 0x8000
      && forall p: PageNo | FIRST_PAGE <= p < hint * 32 :: Taken(bits, p)
    }

    /** First fit from page 768 * 1024, with no hint. */
    function Find(): (Option<PageNo>, Allocator) {
      var p := FirstFree(bits, FIRST_PAGE);
      if p < PAGES then (Some(p), Allocator(Mark(bits, p), p / 32)) else (None, this)
    }

    ghost function Clear(): set<PageNo> {
      set p: PageNo | FIRST_PAGE <= p < PAGES && !Taken(bits, p)
    }

    /** The pages n successive calls return. */
    function FindMany(n: nat): seq<PageNo>
      decreases n
    {
      if n == 0 then []
      else match Find()
        case (None, next) => []
        case (Some(p), next) => [p] + next.FindMany(n - 1)
    }
  }

  /** Marking a page sets its bit and no other. */
  lemma MarkTakes(bits: PageIndex, p: PageNo, q: PageNo)
    ensures Taken(Mark(bits, p), q) <==> Taken(bits, q) || q == p
  {
    if p / 32 == q / 32 {
      SetBit(bits[p / 32], 31 - p % 32, 31 - q % 32);
    }
  }

  lemma {:induction false} FirstFreeUnique(bits: PageIndex, p: nat, r: nat)
    requires p <= r <= PAGES
    requires forall q: PageNo | p <= q < r :: Taken(bits, q)
    requires r < PAGES ==> !Taken(bits, r)
    ensures FirstFree(bits, p) == r
    decreases r - p
  {
    if p < r {
      FirstFreeUnique(bits, p + 1, r);
    }
  }

  /** A call returns the lowest clear page, takes exactly that page and keeps the hint sound; it
      returns nothing exactly when no page from 0xC0000000 on is clear. */
  lemma FindLowest(a: Allocator)
    requires a.Valid()
    ensures var (r, a') := a.Find();
            && a'.Valid()
            && (r == None <==> a.Clear() == {})
            && (r == None ==> a' == a)
            && (r.Some? ==> r.value in a.Clear() && (forall p | p in a.Clear() :: r.value <= p)
                            && a'.Clear() == a.Clear() - {r.value}
                            && (forall p: PageNo :: Taken(a'.bits, p) <==> Taken(a.bits, p) || p == r.value))
  {
    var p := FirstFree(a.bits, FIRST_PAGE);
    if p < PAGES {
      assert p in a.Clear();
      forall q: PageNo
        ensures Taken(Mark(a.bits, p), q) <==> Taken(a.bits, q) || q == p
      {
        MarkTakes(a.bits, p, q);
      }
    } else {
      assert a.Clear() == {};
    }
  }

  /** A page's bit in numbers: bit 31 of a word stands for its first page, bit 0 for its last. */
  lemma TakenNumbers(bits: PageIndex, p: PageNo)
    ensures Taken(bits, p) <==> bits[p / 32] / Pow2(31 - p % 32) % 2 == 1
  {
    BitIsShr(bits[p / 32], 31 - p % 32);
    ShrIsDiv(bits[p / 32], 31 - p % 32);
    LowBit(bits[p / 32] / Pow2(31 - p % 32));
  }

  /** A call in numbers: the lowest clear page from address 0xC0000000 on, whose bit alone it sets. */
  lemma FirstFit(a: Allocator)
    requires a.Valid()
    ensures var (r, a') := a.Find();
            && (r == None ==> a' == a && forall p: PageNo | 0xC_0000 <= p :: Taken(a.bits, p))
            && (r.Some? ==>
                  && 0xC_0000 <= r.value && !Taken(a.bits, r.value)
                  && (forall p: PageNo | 0xC_0000 <= p < r.value :: Taken(a.bits, p))
                  && (forall p: PageNo :: Taken(a'.bits, p) <==> Taken(a.bits, p) || p == r.value))
  {
    FindLowest(a);
    if a.Find().0 == None {
      forall p: PageNo | 0xC_0000 <= p
        ensures Taken(a.bits, p)
      {
        assert p !in a.Clear();
      }
    }
  }

  lemma FindStep(a: Allocator, n: nat)
    requires a.Valid() && 0 < n && a.FindMany(n) != []
    ensures var (r, a') := a.Find();
            && a'.Valid() && r.Some? && r.value in a.Clear()
            && a.FindMany(n) == [r.value] + a'.FindMany(n - 1)
            && (forall p | p in a'.Clear() :: p in a.Clear() && r.value < p)
            && |a'.Clear()| == |a.Clear()| - 1
  {
    FindLowest(a);
  }

  lemma {:induction false} FindManyClear(a: Allocator, n: nat, j: nat)
    requires a.Valid() && j < |a.FindMany(n)|
    ensures a.FindMany(n)[j] in a.Clear()
    decreases n
  {
    FindStep(a, n);
    if j > 0 {
      FindManyClear(a.Find().1, n - 1, j - 1);
    }
  }

  /** Over any number of calls no page is returned twice: the results ascend. */
  lemma {:induction false} FindManyAscends(a: Allocator, n: nat, i: nat, j: nat)
    requires a.Valid() && i < j < |a.FindMany(n)|
    ensures a.FindMany(n)[i] < a.FindMany(n)[j]
    decreases n
  {
    FindStep(a, n);
    var a' := a.Find().1;
    if i == 0 {
      FindManyClear(a', n - 1, j - 1);
    } else {
      FindManyAscends(a', n - 1, i - 1, j - 1);
    }
  }

  /** The allocator serves every clear page: n calls return as many pages as are left, up to n. */
  lemma {:induction false} FindManyServes(a: Allocator, n: nat)
    requires a.Valid()
    ensures |a.FindMany(n)| == if n <= |a.Clear()| then n else |a.Clear()|
    decreases n
  {
    if n > 0 {
      if a.FindMany(n) == [] {
        FindLowest(a);
      } else {
        FindStep(a, n);
        FindManyServes(a.Find().1, n - 1);
      }
    }
  }
}
