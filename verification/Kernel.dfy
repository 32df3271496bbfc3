/** The paging subsystem as a transition system: demand faults, find-then-map requests and data
    writes, and what every run of them keeps. The imperative code of `Machine` is proved to take
    exactly these steps. */
module Kernel {
  import opened Hardware
  import opened Tables
  import opened Bitmap

  const WINDOW := 1023 * 1024
  const DEMAND_BASE := 0x1000_0000

  datatype State = State(tables: TableState, phys: Word, alloc: Allocator)

  datatype Event =
    | Fault(va: Word)                          // supervisor page fault, page not present
    | Map(frame: FrameNo)                      // find_free_virtaddr, then map_page with flags 3
    | Write(va: Word, v: Word)                 // a store through a writable page that leads to no reserved frame

  ghost function Pages(L: Layout, s: State): map<PageNo, Leaf> {
    Space(s.tables.mem, L.pd)
  }

  // ----- steps -----

  /** `cur_physaddr += 0x1000` on 32 bits. */
  function NextPhys(phys: Word): Word { (phys + 0x1000) % 0x1_0000_0000 }

  /** `page_fault_handler`: in the window the next pool table is installed, elsewhere the next
      demand frame is mapped. */
  function HandleFault(L: Layout, s: State, va: Word): State
    requires L.Valid() && FaultTaken(L, s, va)
  {
    var d, t := DirOf(PageOf(va)), IdxOf(PageOf(va));
    var n := s.tables.issued;
    if d == 1023 then
      s.(tables := MapPage(L, s.tables.(issued := n + 1), d, t, Entry(L.PoolFrame(n), 3)))
    else
      s.(tables := MapPage(L, s.tables, d, t, Entry(FrameOf(s.phys), 3)), phys := NextPhys(s.phys))
  }

  /** A not-present fault, with a table left in case one is needed, or the frame behind the pool next. */
  predicate FaultTaken(L: Layout, s: State, va: Word) {
    var d, t := DirOf(PageOf(va)), IdxOf(PageOf(va));
    && Walk(s.tables.mem, L.pd, d, t) == None
    && Present(s.tables.mem[L.pd][1023])
    && (TakesTable(L, s, va) ==> s.tables.issued <= 256)
  }

  predicate TakesTable(L: Layout, s: State, va: Word) {
    var d := DirOf(PageOf(va));
    d == 1023 || NeedsTable(L, s.tables.mem, d)
  }

  /** A not-present fault, with a pool table left in case one is needed. */
  predicate FaultReady(L: Layout, s: State, va: Word) {
    FaultTaken(L, s, va) && (TakesTable(L, s, va) ==> s.tables.issued < 256)
  }

  /** A not-present fault that takes the frame behind the pool, which holds neither tables nor variables. */
  predicate FaultBeyond(L: Layout, s: State, va: Word)
    requires L.Valid()
  {
    FaultTaken(L, s, va) && TakesTable(L, s, va) && s.tables.issued == 256 && !L.Reserved(L.PoolFrame(256))
  }

  /** `find_free_virtaddr` followed by `map_page` on its result. */
  function FindAndMap(L: Layout, s: State, frame: FrameNo): State
    requires L.Valid() && MapReady(L, s)
  {
    var p := s.alloc.Find().0.value;
    s.(tables := MapPage(L, s.tables, DirOf(p), IdxOf(p), Entry(frame, 3)), alloc := s.alloc.Find().1)
  }

  /** The page that a caller of `find_free_virtaddr` goes on with: NULL is page 0. */
  function PageGiven(s: State): PageNo {
    match s.alloc.Find().0
    case None => 0
    case Some(p) => p
  }

  /** With no clear page left, the callers map page 0. */
  function MapNull(L: Layout, s: State, frame: FrameNo): State
    requires L.Valid() && NullReady(L, s)
  {
    var p := PageGiven(s);
    s.(tables := MapPage(L, s.tables, DirOf(p), IdxOf(p), Entry(frame, 3)))
  }

  predicate NullReady(L: Layout, s: State) {
    s.alloc.Find().0 == None && TableLeft(L, s.tables, DirOf(PageGiven(s)))
  }

  /** A clear page is left below the window. */
  predicate PageLeft(s: State) {
    s.alloc.Find().0.Some? && s.alloc.Find().0.value < WINDOW
  }

  predicate MapReady(L: Layout, s: State) {
    PageLeft(s) && TableLeft(L, s.tables, DirOf(s.alloc.Find().0.value))
  }

  /** Four bytes within a writable page that leads neither to a table nor to the paging code's own
      variables. */
  predicate WriteReady(L: Layout, s: State, va: Word) {
    var leaf := WalkPage(s.tables.mem, L.pd, PageOf(va));
    va % 0x1000 <= 0xFFC && leaf.Some? && leaf.value.writable && !L.Reserved(leaf.value.frame)
  }

  /** An ordinary store of the kernel, at any alignment. */
  function WriteData(L: Layout, s: State, va: Word, v: Word): State
    requires WriteReady(L, s, va)
  {
    var f := WalkPage(s.tables.mem, L.pd, PageOf(va)).value.frame;
    s.(tables := s.tables.(mem := s.tables.mem[f := PutWord(s.tables.mem[f], va % 0x1000, v)]))
  }

  predicate Ready(L: Layout, s: State, e: Event) {
    match e
    case Fault(va) => FaultReady(L, s, va)
    case Map(_) => MapReady(L, s)
    case Write(va, _) => WriteReady(L, s, va)
  }

  function Step(L: Layout, s: State, e: Event): State
    requires L.Valid() && Ready(L, s, e)
  {
    match e
    case Fault(va) => HandleFault(L, s, va)
    case Map(frame) => FindAndMap(L, s, frame)
    case Write(va, v) => WriteData(L, s, va, v)
  }

  /** Every event of the sequence is ready when its turn comes. */
  ghost predicate Run(L: Layout, s: State, es: seq<Event>)
    requires L.Valid()
    decreases |es|
  {
    es != [] ==> Ready(L, s, es[0]) && Run(L, Step(L, s, es[0]), es[1..])
  }

  ghost function Final(L: Layout, s: State, es: seq<Event>): State
    requires L.Valid() && Run(L, s, es)
    decreases |es|
  {
    if es == [] then s else Final(L, Step(L, s, es[0]), es[1..])
  }

  // ----- the invariant -----

  /** How many demand frames were handed out so far. */
  function DemandCount(phys: Word): int { phys / 0x1000 - DEMAND_BASE / 0x1000 }

  ghost function BelowWindow(space: map<PageNo, Leaf>): set<PageNo> {
    set p | p in space && p < WINDOW
  }

  ghost function Mapped(L: Layout, s: State): set<PageNo> {
    BelowWindow(Pages(L, s))
  }

  /** Structure of the tables, soundness of the hint, and every demand frame handed out so far
      accounted for by a translated page below the window. */
  ghost predicate Good(L: Layout, s: State, slots: seq<Index>) {
    && Inv(L, s.tables.mem, slots)
    && s.tables.issued == |slots|
    && s.alloc.Valid()
    && Accounted(s.phys, Pages(L, s))
  }

  ghost predicate Accounted(phys: Word, space: map<PageNo, Leaf>) {
    phys % 0x1000 == 0 && 0 <= DemandCount(phys) <= |BelowWindow(space)|
  }

  /** The later address space has all earlier translations, unchanged. */
  ghost predicate Extends(a: map<PageNo, Leaf>, b: map<PageNo, Leaf>) {
    forall p | p in a :: p in b && b[p] == a[p]
  }

  ghost function SlotsStep(L: Layout, s: State, slots: seq<Index>, e: Event): seq<Index>
    requires Ready(L, s, e)
  {
    match e
    case Fault(va) =>
      var p := PageOf(va);
      if DirOf(p) == 1023 then slots + [IdxOf(p)] else SlotsAfter(L, s.tables.mem, slots, DirOf(p))
    case Map(_) => SlotsAfter(L, s.tables.mem, slots, DirOf(s.alloc.Find().0.value))
    case Write(_, _) => slots
  }

  // ----- counting table entries -----

  ghost function SlotPages(d: Index, n: nat): (r: set<PageNo>)
    requires n <= 1024
    ensures |r| <= n
    ensures forall p: PageNo | DirOf(p) == d && IdxOf(p) < n :: p in r
  {
    if n == 0 then {} else SlotPages(d, n - 1) + {PageAt(d, n - 1)}
  }

  ghost function SlotsPages(slots: seq<Index>): set<PageNo> {
    if slots == [] then SlotPages(768, 1024)
    else SlotsPages(slots[..|slots| - 1]) + SlotPages(slots[|slots| - 1], 1024)
  }

  lemma {:induction false} SlotsPagesSize(slots: seq<Index>)
    ensures |SlotsPages(slots)| <= 1024 * (1 + |slots|)
  {
    if slots != [] {
      SlotsPagesSize(slots[..|slots| - 1]);
    }
  }

  lemma {:induction false} SlotsPagesHas(slots: seq<Index>, p: PageNo)
    requires DirOf(p) == 768 || DirOf(p) in slots
    ensures p in SlotsPages(slots)
  {
    if slots != [] && slots[|slots| - 1] != DirOf(p) {
      SlotsPagesHas(slots[..|slots| - 1], p);
    }
  }

  lemma {:induction false} SubsetSize<T>(a: set<T>, b: set<T>)
    requires a <= b
    ensures |a| <= |b|
  {
    if a != {} {
      var x :| x in a;
      SubsetSize(a - {x}, b - {x});
    }
  }

  /** At most 257 tables of 1024 entries hold pages below the window, so at most 263168 demand
      frames were handed out and `cur_physaddr` is far from wrapping. */
  lemma DemandBound(L: Layout, s: State, slots: seq<Index>)
    requires Good(L, s, slots)
    ensures DemandCount(s.phys) <= |Mapped(L, s)| <= 1024 * (1 + |slots|) <= 263168
    ensures s.phys + 0x1000 < 0x1_0000_0000
  {
    forall p | p in Mapped(L, s)
      ensures p in SlotsPages(slots)
    {
      SlotsPagesHas(slots, p);
    }
    SubsetSize(Mapped(L, s), SlotsPages(slots));
    SlotsPagesSize(slots);
  }
}
