/** What rewriting the pointers of an ACPI root table does to the kernel's state: a request for each
    table, a store of the new pointer, and loads of the table's signature, which may fault. */
module Rewriting {
  import opened Hardware
  import opened Tables
  import opened Bitmap
  import opened Kernel
  import opened Runs
  import opened Requests

  // ----- one iteration -----

  /** A signature of four bytes at this address runs over its page. */
  predicate Crosses(w: Word) { w % 0x1000 > 0xFFC }

  /** The kernel address of what w points to, seen in page p. */
  function Seen(p: PageNo, w: Word): (va: Word)
    ensures PageOf(va) == p && va % 0x1000 == w % 0x1000
  {
    SeenParts(p, w);
    p * 0x1000 + w % 0x1000
  }

  lemma SeenParts(p: PageNo, w: Word)
    ensures p * 0x1000 + w % 0x1000 < 0x1_0000_0000
    ensures (p * 0x1000 + w % 0x1000) / 0x1000 == p && (p * 0x1000 + w % 0x1000) % 0x1000 == w % 0x1000
  {
  }

  function PageAddress(p: PageNo): (va: Word)
    ensures PageOf(va) == p
  {
    p * 0x1000
  }

  predicate TouchReady(L: Layout, s: State, p: PageNo) {
    WalkPage(s.tables.mem, L.pd, p) == None ==> FaultReady(L, s, PageAddress(p))
  }

  /** A load from page p: where nothing is mapped, a demand fault comes first. */
  function Touch(L: Layout, s: State, p: PageNo): State
    requires L.Valid() && TouchReady(L, s, p)
  {
    if WalkPage(s.tables.mem, L.pd, p) == None then HandleFault(L, s, PageAddress(p)) else s
  }

  /** The page the next request is given. */
  function NextPage(s: State): PageNo
    requires PageLeft(s)
  {
    s.alloc.Find().0.value
  }

  /** The table that w points to is mapped, and frame f gets new contents. */
  function MapAndStore(L: Layout, s: State, w: Word, f: FrameNo, fr: Frame): State
    requires L.Valid() && MapReady(L, s)
  {
    WithFrame(FindAndMap(L, s, FrameOf(w)), f, fr)
  }

  function WithFrame(s: State, f: FrameNo, fr: Frame): State {
    s.(tables := s.tables.(mem := s.tables.mem[f := fr]))
  }

  predicate FinishReady(L: Layout, s: State, w: Word, q: PageNo) {
    Crosses(w) ==> TouchReady(L, s, q)
  }

  /** The loads of the signature, whose last bytes are in page q when it runs over its page. */
  function Finish(L: Layout, s: State, w: Word, q: PageNo): State
    requires L.Valid() && FinishReady(L, s, w, q)
  {
    if Crosses(w) then Touch(L, s, q) else s
  }

  /** The page behind the one that the next request is given. */
  function PageBehind(s: State): PageNo
    requires PageLeft(s)
  {
    NextPage(s) + 1
  }

  predicate IterateReady(L: Layout, s: State, w: Word, f: FrameNo, fr: Frame)
    requires L.Valid()
  {
    MapReady(L, s) && FinishReady(L, MapAndStore(L, s, w, f, fr), w, PageBehind(s))
  }

  /** One iteration of either loop, for pointer w of a root table in frame f, which becomes fr. */
  function Iterate(L: Layout, s: State, w: Word, f: FrameNo, fr: Frame): State
    requires L.Valid() && IterateReady(L, s, w, f, fr)
  {
    Finish(L, MapAndStore(L, s, w, f, fr), w, PageBehind(s))
  }

  /** Enough clear pages below the window for n requests, and pool tables only used by requests. */
  ghost predicate Roomy(s: State, slots: seq<Index>, n: nat) {
    n > 0 ==> KernelSlots(slots) && n <= |ClearBelow(s.alloc)|
  }

  lemma RoomyStep(L: Layout, s: State, slots: seq<Index>, frame: FrameNo, n: nat)
    requires Good(L, s, slots) && Roomy(s, slots, n) && n > 0
    ensures MapReady(L, s) && FIRST_PAGE <= NextPage(s)
    ensures var s', slots' := FindAndMap(L, s, frame), SlotsStep(L, s, slots, Map(frame));
            Roomy(s', slots', n - 1) && KernelSlots(slots') && |slots'| <= 254
  {
    ClearShrinks(s.alloc);
    FindLowest(s.alloc);
    RequestFindsTable(L, s, slots, frame);
  }

  ghost function SlotsMapped(L: Layout, s: State, slots: seq<Index>, w: Word): seq<Index>
    requires L.Valid() && MapReady(L, s)
  {
    SlotsStep(L, s, slots, Map(FrameOf(w)))
  }

  /** The first half of an iteration keeps the invariant and all translations. */
  lemma MapAndStoreKeeps(L: Layout, s: State, slots: seq<Index>, w: Word, f: FrameNo, fr: Frame)
    requires Good(L, s, slots) && MapReady(L, s) && !L.Reserved(f)
    ensures var s', slots' := MapAndStore(L, s, w, f, fr), SlotsMapped(L, s, slots, w);
            && Good(L, s', slots')
            && Pages(L, s') == Pages(L, FindAndMap(L, s, FrameOf(w)))
            && Extends(Pages(L, s), Pages(L, s')) && NextPage(s) in Pages(L, s')
            && s'.alloc == s.alloc.Find().1 && s'.phys == s.phys && s'.tables.mem[f] == fr
  {
    var frame := FrameOf(w);
    MapKeeps(L, s, slots, frame);
    RequestDelivers(L, s, slots, frame);
    StoreKeeps(L, FindAndMap(L, s, frame), SlotsMapped(L, s, slots, w), f, fr);
  }

  lemma StoreKeeps(L: Layout, s: State, slots: seq<Index>, f: FrameNo, fr: Frame)
    requires Good(L, s, slots) && !L.Reserved(f)
    ensures Good(L, WithFrame(s, f, fr), slots) && Pages(L, WithFrame(s, f, fr)) == Pages(L, s)
  {
    DataWriteKeeps(L, s.tables.mem, WithFrame(s, f, fr).tables.mem, slots);
  }

  /** A load keeps the invariant, all translations, the index and all data. */
  lemma TouchKeeps(L: Layout, s: State, slots: seq<Index>, p: PageNo, f: FrameNo) returns (slots': seq<Index>)
    requires Good(L, s, slots) && TouchReady(L, s, p) && !L.Reserved(f)
    ensures var s' := Touch(L, s, p);
            && Good(L, s', slots') && slots' == TouchSlots(L, s, slots, p)
            && Extends(Pages(L, s), Pages(L, s')) && p in Pages(L, s')
            && s'.alloc == s.alloc && s'.tables.mem[f] == s.tables.mem[f]
            && (p !in Pages(L, s) && p < WINDOW ==> Pages(L, s')[p] == Leaf(FrameOf(s.phys), true))
            && FrameOf(s.phys) <= FrameOf(s'.phys) <= FrameOf(s.phys) + 1
  {
    slots' := slots;
    if WalkPage(s.tables.mem, L.pd, p) == None {
      slots' := SlotsStep(L, s, slots, Fault(PageAddress(p)));
      FaultProgress(L, s, slots, PageAddress(p));
      FaultOnlyAdds(L, s, slots, PageAddress(p));
      DemandStep(L, s, slots, Fault(PageAddress(p)));
    }
  }

  ghost function TouchSlots(L: Layout, s: State, slots: seq<Index>, p: PageNo): seq<Index>
    requires TouchReady(L, s, p)
  {
    if WalkPage(s.tables.mem, L.pd, p) == None then SlotsStep(L, s, slots, Fault(PageAddress(p))) else slots
  }

  lemma TouchIsReady(L: Layout, s: State, slots: seq<Index>, p: PageNo)
    requires Good(L, s, slots) && |slots| < 256
    ensures TouchReady(L, s, p)
  {
  }

  /** A fault between 0xC0000000 and the window takes its table from the same 254 slots as requests. */
  lemma TouchKernelSlots(L: Layout, s: State, slots: seq<Index>, p: PageNo)
    requires Good(L, s, slots) && KernelSlots(slots) && TouchReady(L, s, p) && FIRST_PAGE <= p < WINDOW
    ensures KernelSlots(TouchSlots(L, s, slots, p))
  {
    var d := DirOf(p);
    if NeedsTable(L, s.tables.mem, d) {
      assert d != 768 && d != 1023;
      assert forall j | 0 <= j < |slots| :: slots[j] != d;
      assert forall k | k in slots + [d] :: k in slots || k == d;
    }
  }

  /** The first half of an iteration. */
  lemma MapAndStoreRoomy(L: Layout, s: State, slots: seq<Index>, w: Word, f: FrameNo, fr: Frame, left: nat)
    requires Good(L, s, slots) && Roomy(s, slots, left + 1) && !L.Reserved(f)
    ensures MapReady(L, s) && FIRST_PAGE <= NextPage(s) && (left > 0 ==> PageBehind(s) < WINDOW)
    ensures var s', slots' := MapAndStore(L, s, w, f, fr), SlotsMapped(L, s, slots, w);
            Good(L, s', slots') && KernelSlots(slots') && |slots'| <= 254 && left <= |ClearBelow(s'.alloc)|
  {
    RoomyStep(L, s, slots, FrameOf(w), left + 1);
    MapAndStoreKeeps(L, s, slots, w, f, fr);
    if left > 0 {
      ClearShrinks(s.alloc);
      ClearBehind(s.alloc);
    }
  }

  lemma TouchRoomy(L: Layout, s: State, slots: seq<Index>, p: PageNo, f: FrameNo, left: nat)
    returns (slots': seq<Index>)
    requires Good(L, s, slots) && KernelSlots(slots) && |slots| <= 254 && left <= |ClearBelow(s.alloc)|
    requires FIRST_PAGE <= p && (left > 0 ==> p < WINDOW) && !L.Reserved(f)
    ensures TouchReady(L, s, p) && Good(L, Touch(L, s, p), slots') && Roomy(Touch(L, s, p), slots', left)
  {
    TouchIsReady(L, s, slots, p);
    slots' := TouchKeeps(L, s, slots, p, f);
    if left > 0 {
      TouchKernelSlots(L, s, slots, p);
    }
  }

  /** The second half: the loads. */
  lemma FinishRoomy(L: Layout, s: State, slots: seq<Index>, w: Word, q: PageNo, f: FrameNo, left: nat)
    returns (slots': seq<Index>)
    requires Good(L, s, slots) && KernelSlots(slots) && |slots| <= 254 && left <= |ClearBelow(s.alloc)|
    requires FIRST_PAGE <= q && (left > 0 ==> q < WINDOW) && !L.Reserved(f)
    ensures FinishReady(L, s, w, q) && Good(L, Finish(L, s, w, q), slots') && Roomy(Finish(L, s, w, q), slots', left)
  {
    slots' := slots;
    if Crosses(w) {
      slots' := TouchRoomy(L, s, slots, q, f, left);
    }
  }

  /** An iteration, crossing or not, is possible and keeps the invariant and the room. */
  lemma IterateRoomy(L: Layout, s: State, slots: seq<Index>, w: Word, f: FrameNo, fr: Frame, left: nat)
    returns (slots': seq<Index>)
    requires Good(L, s, slots) && Roomy(s, slots, left + 1) && !L.Reserved(f)
    ensures IterateReady(L, s, w, f, fr) && FIRST_PAGE <= NextPage(s)
    ensures Good(L, Iterate(L, s, w, f, fr), slots') && Roomy(Iterate(L, s, w, f, fr), slots', left)
  {
    MapAndStoreRoomy(L, s, slots, w, f, fr, left);
    slots' := FinishRoomy(L, MapAndStore(L, s, w, f, fr), SlotsMapped(L, s, slots, w), w, PageBehind(s), f, left);
  }

  /** What an iteration leaves: all translations, the index but for the page granted, frame f as given,
      and a signature that can be read. */
  ghost predicate Iterated(L: Layout, s: State, w: Word, f: FrameNo, fr: Frame, s': State)
    requires PageLeft(s)
  {
    && Extends(Pages(L, s), Pages(L, s')) && s'.alloc == s.alloc.Find().1 && s'.tables.mem[f] == fr
    && NextPage(s) in Pages(L, s') && (Crosses(w) ==> PageBehind(s) in Pages(L, s'))
    && FrameOf(s.phys) <= FrameOf(s'.phys) <= FrameOf(s.phys) + 1
  }

  lemma IterateKeeps(L: Layout, s: State, slots: seq<Index>, w: Word, f: FrameNo, fr: Frame)
    requires Good(L, s, slots) && !L.Reserved(f) && IterateReady(L, s, w, f, fr)
    ensures Iterated(L, s, w, f, fr, Iterate(L, s, w, f, fr))
  {
    MapAndStoreKeeps(L, s, slots, w, f, fr);
    FinishKeeps(L, MapAndStore(L, s, w, f, fr), SlotsMapped(L, s, slots, w), w, PageBehind(s), f);
  }

  lemma FinishKeeps(L: Layout, s: State, slots: seq<Index>, w: Word, q: PageNo, f: FrameNo)
    requires Good(L, s, slots) && !L.Reserved(f) && FinishReady(L, s, w, q)
    ensures var s' := Finish(L, s, w, q);
            && Extends(Pages(L, s), Pages(L, s')) && s'.alloc == s.alloc && s'.tables.mem[f] == s.tables.mem[f]
            && (Crosses(w) ==> q in Pages(L, s'))
            && FrameOf(s.phys) <= FrameOf(s'.phys) <= FrameOf(s.phys) + 1
  {
    if Crosses(w) {
      var _ := TouchKeeps(L, s, slots, q, f);
    }
  }

  /** When clear pages are left after a request, they lie behind the page granted. */
  lemma ClearBehind(a: Allocator)
    requires a.Valid() && a.Find().0.Some? && ClearBelow(a.Find().1) != {}
    ensures a.Find().0.value + 1 < WINDOW
  {
    FindLowest(a);
    var q :| q in ClearBelow(a.Find().1);
    assert a.Find().0.value <= q;
  }

  // ----- spilling -----

  /** The page behind the next one is clear, and below the window. */
  predicate ClearBehindNext(a: Allocator) {
    a.Find().0.Some? && a.Find().0.value + 1 < WINDOW && !Taken(a.bits, a.Find().0.value + 1)
  }

  /** The next request's table has its signature across the page end, and the page behind is clear. */
  predicate Spills(a: Allocator, w: Word) { Crosses(w) && ClearBehindNext(a) }

  /** Spilling in numbers: the signature starts in the last three bytes of its page, and the page behind the next
      one is clear and below the window. */
  lemma SpillsNumbers(a: Allocator, w: Word, p: PageNo)
    requires a.Find().0 == Some(p)
    ensures Spills(a, w) <==> 0xFFD <= w % 0x1000 && p + 1 < 0xF_FC00 && !Taken(a.bits, p + 1)
  {
  }

  /** While the index covers, an iteration leads the page granted to the table, and it keeps the index
      covering if and only if it does not spill. */
  lemma IterateSound(L: Layout, s: State, slots: seq<Index>, w: Word, f: FrameNo, fr: Frame)
    requires Good(L, s, slots) && !L.Reserved(f) && IterateReady(L, s, w, f, fr) && Covered(L, s)
    ensures var s' := Iterate(L, s, w, f, fr);
            && NextPage(s) in Pages(L, s') && Pages(L, s')[NextPage(s)] == Leaf(FrameOf(w), true)
            && (Covered(L, s') <==> !Spills(s.alloc, w))
  {
    MapAndStoreKeeps(L, s, slots, w, f, fr);
    MapSound(L, s, slots, w, f, fr);
    FinishSound(L, s.alloc, MapAndStore(L, s, w, f, fr), SlotsMapped(L, s, slots, w), w, PageBehind(s), f);
  }

  lemma MapSound(L: Layout, s: State, slots: seq<Index>, w: Word, f: FrameNo, fr: Frame)
    requires Good(L, s, slots) && !L.Reserved(f) && MapReady(L, s) && Covered(L, s)
    ensures var s' := MapAndStore(L, s, w, f, fr);
            && NextPage(s) in Pages(L, s') && Pages(L, s')[NextPage(s)] == Leaf(FrameOf(w), true)
            && Covered(L, s')
  {
    MapAndStoreKeeps(L, s, slots, w, f, fr);
    CoveredDelivers(L, s, slots, FrameOf(w));
    CoveredStep(L, s, slots, Map(FrameOf(w)));
  }

  lemma FinishSound(L: Layout, a: Allocator, s: State, slots: seq<Index>, w: Word, q: PageNo, f: FrameNo)
    requires Good(L, s, slots) && Covered(L, s) && a.Valid() && a.Find().0.Some? && a.Find().1 == s.alloc
    requires q == a.Find().0.value + 1 && FinishReady(L, s, w, q) && !L.Reserved(f)
    ensures Extends(Pages(L, s), Pages(L, Finish(L, s, w, q)))
    ensures Covered(L, Finish(L, s, w, q)) <==> !Spills(a, w)
  {
    SpillsAfter(a, w, q);
    if Crosses(w) {
      TouchSound(L, s, slots, q, f);
    }
  }

  lemma SpillsAfter(a: Allocator, w: Word, q: PageNo)
    requires a.Valid() && a.Find().0.Some? && q == a.Find().0.value + 1
    ensures FIRST_PAGE <= q
    ensures Spills(a, w) <==> Crosses(w) && q < WINDOW && !Taken(a.Find().1.bits, q)
  {
    FindLowest(a);
  }

  lemma TouchSound(L: Layout, s: State, slots: seq<Index>, q: PageNo, f: FrameNo)
    requires Good(L, s, slots) && Covered(L, s) && FIRST_PAGE <= q && TouchReady(L, s, q) && !L.Reserved(f)
    ensures Extends(Pages(L, s), Pages(L, Touch(L, s, q)))
    ensures Covered(L, Touch(L, s, q)) <==> (q < WINDOW ==> Taken(s.alloc.bits, q))
  {
    var _ := TouchKeeps(L, s, slots, q, f);
    TouchCovered(L, s, slots, q);
  }

  lemma TouchCovered(L: Layout, s: State, slots: seq<Index>, p: PageNo)
    requires Good(L, s, slots) && TouchReady(L, s, p) && Covered(L, s) && FIRST_PAGE <= p
    ensures Covered(L, Touch(L, s, p)) <==> (p < WINDOW ==> Taken(s.alloc.bits, p))
  {
    if WalkPage(s.tables.mem, L.pd, p) == None {
      CoveredStep(L, s, slots, Fault(PageAddress(p)));
    } else {
      assert p in Pages(L, s);
    }
  }

  // ----- the whole loop -----

  /** A rewriting loop: the frame of the root table, the pointers, and the frame's contents before the
      loop and after each iteration. */
  datatype Loop = Loop(f: FrameNo, was: seq<Word>, frames: seq<Frame>) {
    predicate Valid(L: Layout) { !L.Reserved(f) && |frames| == |was| + 1 }

    function n(): nat { |was| }
  }

  predicate EntryReady(L: Layout, R: Loop, s: State, e: nat)
    requires L.Valid() && R.Valid(L) && e < R.n()
  {
    IterateReady(L, s, R.was[e], R.f, R.frames[e + 1])
  }

  function Iteration(L: Layout, R: Loop, s: State, e: nat): State
    requires L.Valid() && R.Valid(L) && e < R.n() && EntryReady(L, R, s, e)
  {
    Iterate(L, s, R.was[e], R.f, R.frames[e + 1])
  }

  /** The loop as the states before its first and after each of its iterations. */
  ghost predicate IsTrace(L: Layout, R: Loop, trace: seq<State>) {
    && L.Valid() && R.Valid(L) && 0 < |trace| <= R.n() + 1
    && forall e: nat {:trigger StepAt(L, R, trace, e)} | e + 1 < |trace| :: StepAt(L, R, trace, e)
  }

  ghost predicate StepAt(L: Layout, R: Loop, trace: seq<State>, e: nat)
    requires L.Valid() && R.Valid(L) && e + 1 < |trace| <= R.n() + 1
  {
    EntryReady(L, R, trace[e], e) && trace[e + 1] == Iteration(L, R, trace[e], e)
  }

  /** Where the loop may start: the invariant, and room for all its requests. */
  ghost predicate Start(L: Layout, R: Loop, s: State, slots: seq<Index>) {
    Good(L, s, slots) && R.Valid(L) && Roomy(s, slots, R.n()) && s.tables.mem[R.f] == R.frames[0]
  }

  /** The allocator after k requests. */
  function AllocAfter(a: Allocator, k: nat): Allocator
    decreases k, a.hint
  {
    if k == 0 then a else AllocAfter(a, k - 1).Find().1
  }

  /** The page that request j is given. */
  function Granted(a: Allocator, j: nat): PageNo {
    match AllocAfter(a, j).Find().0
    case None => 0
    case Some(p) => p
  }

  /** The new value of word j. */
  function NewWord(a: Allocator, was: seq<Word>, j: nat): Word
    requires j < |was|
  {
    Seen(Granted(a, j), was[j])
  }

  /** The kernel address leads to the physical address w. */
  ghost predicate Leads(L: Layout, s: State, va: Word, w: Word) {
    Translate(s.tables.mem, L.pd, va) == Some(w) && va >= KERNEL_BASE
  }

  /** The four bytes at the address can be read. */
  ghost predicate FourReadable(L: Layout, s: State, va: Word) {
    && KERNEL_BASE <= va && va + 3 < 0x1_0000_0000
    && PageOf(va) in Pages(L, s) && PageOf(va + 3) in Pages(L, s)
  }

  lemma LeadsSeen(L: Layout, s: State, p: PageNo, w: Word)
    requires p in Pages(L, s) && FIRST_PAGE <= p
    ensures Leads(L, s, Seen(p, w), w) <==> Pages(L, s)[p].frame == FrameOf(w)
  {
    SeenKernel(p, w, Pages(L, s)[p].frame);
  }

  lemma SeenKernel(p: PageNo, w: Word, f: FrameNo)
    requires FIRST_PAGE <= p
    ensures Seen(p, w) >= KERNEL_BASE
    ensures f * 0x1000 + w % 0x1000 == w <==> f == FrameOf(w)
  {
  }

  lemma SeenReadable(L: Layout, s: State, p: PageNo, w: Word)
    requires FIRST_PAGE <= p < WINDOW && p in Pages(L, s) && (Crosses(w) ==> p + 1 in Pages(L, s))
    ensures FourReadable(L, s, Seen(p, w))
  {
    SeenKernel(p, w, 0);
    SignatureEnd(p, w);
  }

  lemma SignatureEnd(p: PageNo, w: Word)
    requires p < WINDOW
    ensures Seen(p, w) + 3 < 0x1_0000_0000
    ensures PageOf(Seen(p, w) + 3) == if Crosses(w) then p + 1 else p
  {
    var va := Seen(p, w);
    assert va == p * 0x1000 + w % 0x1000;
  }

  lemma LeadsKept(L: Layout, s: State, s': State, va: Word, w: Word)
    requires Extends(Pages(L, s), Pages(L, s')) && Leads(L, s, va, w)
    ensures Leads(L, s', va, w)
  {
    assert PageOf(va) in Pages(L, s);
  }

  lemma ReadableKept(L: Layout, s: State, s': State, va: Word)
    requires FourReadable(L, s, va) && Extends(Pages(L, s), Pages(L, s'))
    ensures FourReadable(L, s', va)
  {
  }

  /** What an iteration on pointer w means: all translations are kept, the whole signature can be read
      through the new word, and while the index covers, the word leads to its table, and the index keeps
      covering if and only if the table does not spill. */
  ghost predicate Stepped(L: Layout, s: State, w: Word, f: FrameNo, fr: Frame, s': State) {
    && PageLeft(s) && FIRST_PAGE <= NextPage(s) && Iterated(L, s, w, f, fr, s')
    && FourReadable(L, s', Seen(NextPage(s), w))
    && (Covered(L, s) ==> Leads(L, s', Seen(NextPage(s), w), w) && (Covered(L, s') <==> !Spills(s.alloc, w)))
    && (Covered(L, s) && Spills(s.alloc, w) ==> Spilled(L, s, s'))
  }

  /** From s to s' a table spilled: the next page to be granted leads to a demand frame already. */
  ghost predicate Spilled(L: Layout, s: State, s': State)
    requires PageLeft(s)
  {
    var q := PageBehind(s);
    s'.alloc.Find().0 == Some(q) && q in Pages(L, s') && Pages(L, s')[q] == Leaf(FrameOf(s.phys), true)
  }

  lemma NextIsBehind(a: Allocator)
    requires a.Valid() && ClearBehindNext(a)
    ensures a.Find().1.Find().0 == Some(a.Find().0.value + 1)
  {
    FindLowest(a);
    var p, a' := a.Find().0.value, a.Find().1;
    assert p + 1 in a'.Clear() && forall q | q in a'.Clear() :: p < q;
    FindLowest(a');
  }

  /** The loads of a spilling table map a demand frame to the page behind, and the next request is given
      that page. */
  lemma SpillTakesNext(L: Layout, s: State, slots: seq<Index>, w: Word, f: FrameNo, fr: Frame)
    requires Good(L, s, slots) && !L.Reserved(f) && IterateReady(L, s, w, f, fr) && Covered(L, s) && Spills(s.alloc, w)
    ensures Spilled(L, s, Iterate(L, s, w, f, fr))
  {
    var q := PageBehind(s);
    MapAndStoreKeeps(L, s, slots, w, f, fr);
    MapSound(L, s, slots, w, f, fr);
    BehindStaysClear(s.alloc, w, q);
    FinishSpills(L, MapAndStore(L, s, w, f, fr), SlotsMapped(L, s, slots, w), w, q, f);
  }

  lemma BehindStaysClear(a: Allocator, w: Word, q: PageNo)
    requires a.Valid() && Spills(a, w) && q == a.Find().0.value + 1
    ensures FIRST_PAGE <= q < WINDOW && !Taken(a.Find().1.bits, q) && a.Find().1.Find().0 == Some(q)
  {
    SpillsAfter(a, w, q);
    NextIsBehind(a);
  }

  lemma FinishSpills(L: Layout, s: State, slots: seq<Index>, w: Word, q: PageNo, f: FrameNo)
    requires Good(L, s, slots) && Covered(L, s) && !L.Reserved(f) && FinishReady(L, s, w, q)
    requires Crosses(w) && FIRST_PAGE <= q < WINDOW && !Taken(s.alloc.bits, q)
    ensures var s' := Finish(L, s, w, q);
            q in Pages(L, s') && Pages(L, s')[q] == Leaf(FrameOf(s.phys), true) && s'.alloc == s.alloc
  {
    assert q !in Pages(L, s);
    var _ := TouchKeeps(L, s, slots, q, f);
  }

  lemma IterateStepped(L: Layout, s: State, slots: seq<Index>, w: Word, f: FrameNo, fr: Frame, left: nat)
    returns (slots': seq<Index>)
    requires Good(L, s, slots) && Roomy(s, slots, left + 1) && !L.Reserved(f)
    ensures IterateReady(L, s, w, f, fr) && Stepped(L, s, w, f, fr, Iterate(L, s, w, f, fr))
    ensures Good(L, Iterate(L, s, w, f, fr), slots') && Roomy(Iterate(L, s, w, f, fr), slots', left)
  {
    slots' := IterateRoomy(L, s, slots, w, f, fr, left);
    IterateKeeps(L, s, slots, w, f, fr);
    SeenReadable(L, Iterate(L, s, w, f, fr), NextPage(s), w);
    if Covered(L, s) {
      IterateSound(L, s, slots, w, f, fr);
      LeadsSeen(L, Iterate(L, s, w, f, fr), NextPage(s), w);
      if Spills(s.alloc, w) {
        SpillTakesNext(L, s, slots, w, f, fr);
      }
    }
  }

  // ----- traces of the loop -----

  /** The loop as the states before its first and after each of its iterations, each iteration meaning what
      `Stepped` says. */
  ghost predicate Trace(L: Layout, R: Loop, trace: seq<State>) {
    && R.Valid(L) && 0 < |trace| <= R.n() + 1
    && forall e: nat {:trigger TraceStep(L, R, trace, e)} | e + 1 < |trace| :: TraceStep(L, R, trace, e)
  }

  ghost predicate TraceStep(L: Layout, R: Loop, trace: seq<State>, e: nat)
    requires R.Valid(L) && e + 1 < |trace| <= R.n() + 1
  {
    Stepped(L, trace[e], R.was[e], R.f, R.frames[e + 1], trace[e + 1])
  }

  lemma NextGood(L: Layout, R: Loop, s: State, s': State, slots: seq<Index>, e: nat) returns (slots': seq<Index>)
    requires L.Valid() && R.Valid(L) && e < R.n() && EntryReady(L, R, s, e) && s' == Iteration(L, R, s, e)
    requires Good(L, s, slots) && Roomy(s, slots, R.n() - e)
    ensures Good(L, s', slots') && Roomy(s', slots', R.n() - (e + 1))
  {
    slots' := IterateRoomy(L, s, slots, R.was[e], R.f, R.frames[e + 1], R.n() - e - 1);
  }

  lemma NextStepped(L: Layout, R: Loop, trace: seq<State>, slots: seq<Index>, e: nat)
    requires IsTrace(L, R, trace) && e + 1 < |trace| && Good(L, trace[e], slots) && Roomy(trace[e], slots, R.n() - e)
    ensures Stepped(L, trace[e], R.was[e], R.f, R.frames[e + 1], trace[e + 1])
  {
    assert StepAt(L, R, trace, e);
    var _ := IterateStepped(L, trace[e], slots, R.was[e], R.f, R.frames[e + 1], R.n() - e - 1);
  }

  lemma TraceAppend(L: Layout, R: Loop, trace: seq<State>, s': State)
    requires IsTrace(L, R, trace) && |trace| <= R.n() && EntryReady(L, R, trace[|trace| - 1], |trace| - 1)
    requires s' == Iteration(L, R, trace[|trace| - 1], |trace| - 1)
    ensures IsTrace(L, R, trace + [s'])
  {
    forall e: nat | e + 1 < |trace| + 1
      ensures StepAt(L, R, trace + [s'], e)
    {
      if e + 1 < |trace| {
        assert StepAt(L, R, trace, e);
      }
    }
  }

  ghost predicate Follows<S, X(!new)>(P: (nat, S, X) -> bool, k: nat, s: S) {
    exists x :: P(k, s, x)
  }

  /** What some companion of the first state satisfies, and passes on, some companion of every state satisfies. */
  lemma {:induction false} Along<S, X(!new)>(trace: seq<S>, P: (nat, S, X) -> bool, k: nat)
    requires k < |trace| && Follows(P, 0, trace[0])
    requires forall e: nat, x | e + 1 < |trace| && P(e, trace[e], x) :: Follows(P, e + 1, trace[e + 1])
    ensures Follows(P, k, trace[k])
    decreases k
  {
    if k > 0 {
      Along(trace, P, k - 1);
      var x :| P(k - 1, trace[k - 1], x);
    }
  }

  /** State k of the loop keeps the invariant and has room for the rest. */
  ghost predicate Fits(L: Layout, R: Loop, k: nat, s: State, slots: seq<Index>) {
    k <= R.n() && Good(L, s, slots) && Roomy(s, slots, R.n() - k)
  }

  lemma FitsNext(L: Layout, R: Loop, trace: seq<State>, slots: seq<Index>, e: nat) returns (slots': seq<Index>)
    requires IsTrace(L, R, trace) && e + 1 < |trace| && Fits(L, R, e, trace[e], slots)
    ensures Fits(L, R, e + 1, trace[e + 1], slots')
  {
    assert StepAt(L, R, trace, e);
    slots' := NextGood(L, R, trace[e], trace[e + 1], slots, e);
  }

  lemma FitsOn(L: Layout, R: Loop, trace: seq<State>) returns (P: (nat, State, seq<Index>) -> bool)
    requires IsTrace(L, R, trace)
    ensures forall k, s, slots :: P(k, s, slots) == Fits(L, R, k, s, slots)
    ensures forall e: nat, x | e + 1 < |trace| && P(e, trace[e], x) :: Follows(P, e + 1, trace[e + 1])
  {
    P := (k: nat, s: State, slots: seq<Index>) => Fits(L, R, k, s, slots);
    forall e: nat, x | e + 1 < |trace| && P(e, trace[e], x)
      ensures Follows(P, e + 1, trace[e + 1])
    {
      var x' := FitsNext(L, R, trace, x, e);
      assert P(e + 1, trace[e + 1], x');
    }
  }

  lemma SlotsAt(L: Layout, R: Loop, trace: seq<State>, slots: seq<Index>, k: nat) returns (slots': seq<Index>)
    requires IsTrace(L, R, trace) && Fits(L, R, 0, trace[0], slots) && k < |trace|
    ensures Fits(L, R, k, trace[k], slots')
  {
    var P := FitsOn(L, R, trace);
    assert P(0, trace[0], slots);
    Along(trace, P, k);
    slots' :| P(k, trace[k], slots');
  }

  /** What the states computed by `Iteration` mean. */
  lemma TraceMeans(L: Layout, R: Loop, trace: seq<State>, slots: seq<Index>)
    requires IsTrace(L, R, trace) && Start(L, R, trace[0], slots)
    ensures Trace(L, R, trace)
  {
    forall e: nat | e + 1 < |trace|
      ensures TraceStep(L, R, trace, e)
    {
      var slots' := SlotsAt(L, R, trace, slots, e);
      NextStepped(L, R, trace, slots', e);
    }
  }

  lemma StepExtends(L: Layout, R: Loop, trace: seq<State>, e: nat)
    requires Trace(L, R, trace) && e + 1 < |trace|
    ensures Extends(Pages(L, trace[e]), Pages(L, trace[e + 1]))
    ensures FrameOf(trace[e].phys) <= FrameOf(trace[e + 1].phys) <= FrameOf(trace[e].phys) + 1
    ensures trace[e + 1].tables.mem[R.f] == R.frames[e + 1]
  {
    assert TraceStep(L, R, trace, e);
  }

  lemma StepGrants(L: Layout, R: Loop, trace: seq<State>, e: nat)
    requires Trace(L, R, trace) && e + 1 < |trace|
    ensures PageLeft(trace[e]) && FIRST_PAGE <= NextPage(trace[e]) && trace[e + 1].alloc == trace[e].alloc.Find().1
    ensures FourReadable(L, trace[e + 1], Seen(NextPage(trace[e]), R.was[e]))
  {
    assert TraceStep(L, R, trace, e);
  }

  lemma {:induction false} ExtendsChain(spaces: seq<map<PageNo, Leaf>>, i: nat, k: nat)
    requires i <= k < |spaces| && forall e: nat | e + 1 < |spaces| :: Extends(spaces[e], spaces[e + 1])
    ensures Extends(spaces[i], spaces[k])
    decreases k
  {
    if i < k {
      ExtendsChain(spaces, i, k - 1);
      assert Extends(spaces[k - 1], spaces[(k - 1) + 1]);
    }
  }

  lemma TraceExtends(L: Layout, R: Loop, trace: seq<State>, i: nat, k: nat)
    requires Trace(L, R, trace) && i <= k < |trace|
    ensures Extends(Pages(L, trace[i]), Pages(L, trace[k]))
  {
    var spaces := seq(|trace|, e requires 0 <= e < |trace| => Pages(L, trace[e]));
    forall e: nat | e + 1 < |spaces|
      ensures Extends(spaces[e], spaces[e + 1])
    {
      StepExtends(L, R, trace, e);
    }
    ExtendsChain(spaces, i, k);
  }

  lemma {:induction false} TracePhys(L: Layout, R: Loop, trace: seq<State>, k: nat)
    requires Trace(L, R, trace) && k < |trace|
    ensures FrameOf(trace[0].phys) <= FrameOf(trace[k].phys) <= FrameOf(trace[0].phys) + k
    decreases k
  {
    if k > 0 {
      TracePhys(L, R, trace, k - 1);
      StepExtends(L, R, trace, k - 1);
    }
  }

  /** The pages are granted as if nothing but requests happened. */
  lemma {:induction false} TraceAlloc(L: Layout, R: Loop, trace: seq<State>, k: nat)
    requires Trace(L, R, trace) && k < |trace|
    ensures trace[k].alloc == AllocAfter(trace[0].alloc, k)
    decreases k
  {
    if k > 0 {
      TraceAlloc(L, R, trace, k - 1);
      StepGrants(L, R, trace, k - 1);
    }
  }

  /** Each table's signature can be read through its new word, whatever pages it lies in. */
  lemma TraceReadable(L: Layout, R: Loop, trace: seq<State>, k: nat, j: nat)
    requires Trace(L, R, trace) && j < k < |trace|
    ensures FourReadable(L, trace[k], NewWord(trace[0].alloc, R.was, j))
  {
    TraceAlloc(L, R, trace, j);
    StepGrants(L, R, trace, j);
    TraceExtends(L, R, trace, j + 1, k);
    ReadableKept(L, trace[j + 1], trace[k], Seen(NextPage(trace[j]), R.was[j]));
  }

  // ----- when the pointers survive -----

  /** After k iterations the index covers and the first k words lead to their tables. */
  ghost predicate SoundAt(L: Layout, a: Allocator, was: seq<Word>, s: State, k: nat)
    requires k <= |was|
  {
    Covered(L, s) && forall j: nat | j < k :: Leads(L, s, NewWord(a, was, j), was[j])
  }

  /** An iteration keeps all this if and only if it does not spill. */
  lemma SoundStep(L: Layout, a: Allocator, was: seq<Word>, s: State, f: FrameNo, fr: Frame, s': State, e: nat)
    requires e < |was| && SoundAt(L, a, was, s, e) && s.alloc == AllocAfter(a, e)
    requires Stepped(L, s, was[e], f, fr, s')
    ensures SoundAt(L, a, was, s', e + 1) <==> !Spills(s.alloc, was[e])
  {
    forall j: nat | j < e
      ensures Leads(L, s', NewWord(a, was, j), was[j])
    {
      LeadsKept(L, s, s', NewWord(a, was, j), was[j]);
    }
  }

  /** All holds after each of the first k iterations. */
  ghost predicate SoundThrough(L: Layout, R: Loop, trace: seq<State>, k: nat)
    requires R.Valid(L) && k < |trace| <= R.n() + 1
  {
    forall j: nat {:trigger SoundAt(L, trace[0].alloc, R.was, trace[j], j)} | j <= k ::
      SoundAt(L, trace[0].alloc, R.was, trace[j], j)
  }

  /** No table among the first k has its signature across the page end with a clear page behind the one
      it is given. Allocator and pointers decide this before the loop starts. */
  predicate NoSpill(a: Allocator, was: seq<Word>, k: nat)
    requires k <= |was|
    decreases k
  {
    k > 0 ==> NoSpill(a, was, k - 1) && !Spills(AllocAfter(a, k - 1), was[k - 1])
  }

  /** Without a signature across a page end nothing spills. */
  lemma {:induction false} NoCrossing(a: Allocator, was: seq<Word>, k: nat)
    requires k <= |was| && forall j | 0 <= j < |was| :: !Crosses(was[j])
    ensures NoSpill(a, was, k)
    decreases k
  {
    if k > 0 {
      NoCrossing(a, was, k - 1);
    }
  }

  /** Words and covering index survive every iteration if and only if none spills. */
  lemma {:induction false} RewriteExactly(L: Layout, R: Loop, trace: seq<State>, k: nat)
    requires Trace(L, R, trace) && k < |trace| && Covered(L, trace[0])
    ensures SoundThrough(L, R, trace, k) <==> NoSpill(trace[0].alloc, R.was, k)
    decreases k
  {
    if k > 0 {
      RewriteExactly(L, R, trace, k - 1);
      if SoundThrough(L, R, trace, k - 1) {
        assert SoundAt(L, trace[0].alloc, R.was, trace[k - 1], k - 1);
        LastSound(L, R, trace, k - 1);
        SoundMore(L, R, trace, k);
      } else {
        SoundLess(L, R, trace, k);
      }
    }
  }

  lemma SoundMore(L: Layout, R: Loop, trace: seq<State>, k: nat)
    requires R.Valid(L) && 0 < k < |trace| <= R.n() + 1 && SoundThrough(L, R, trace, k - 1)
    ensures SoundThrough(L, R, trace, k) <==> SoundAt(L, trace[0].alloc, R.was, trace[k], k)
  {
  }

  lemma SoundLess(L: Layout, R: Loop, trace: seq<State>, k: nat)
    requires R.Valid(L) && 0 < k < |trace| <= R.n() + 1 && !SoundThrough(L, R, trace, k - 1)
    ensures !SoundThrough(L, R, trace, k)
  {
  }

  lemma LastSound(L: Layout, R: Loop, trace: seq<State>, e: nat)
    requires Trace(L, R, trace) && e + 1 < |trace| && SoundAt(L, trace[0].alloc, R.was, trace[e], e)
    ensures SoundAt(L, trace[0].alloc, R.was, trace[e + 1], e + 1) <==> !Spills(AllocAfter(trace[0].alloc, e), R.was[e])
  {
    TraceAlloc(L, R, trace, e);
    assert TraceStep(L, R, trace, e);
    SoundStep(L, trace[0].alloc, R.was, trace[e], R.f, R.frames[e + 1], trace[e + 1], e);
  }

  // ----- what a spill does -----

  /** A spill in the last iteration costs the covering index. */
  lemma LastSpillLoses(L: Layout, R: Loop, trace: seq<State>, e: nat)
    requires Trace(L, R, trace) && e + 1 < |trace| && Covered(L, trace[e]) &&
             Spills(AllocAfter(trace[0].alloc, e), R.was[e])
    ensures !Covered(L, trace[e + 1])
  {
    TraceAlloc(L, R, trace, e);
    TraceSpills(L, R, trace, e);
  }

  /** A spill before that costs the next word its table, unless that lies in the very frame that the
      fault was given. */
  lemma SpillLosesNext(L: Layout, R: Loop, trace: seq<State>, e: nat, k: nat)
    requires Trace(L, R, trace) && e + 1 < k < |trace|
    requires Covered(L, trace[e]) && Spills(AllocAfter(trace[0].alloc, e), R.was[e])
    ensures Leads(L, trace[k], NewWord(trace[0].alloc, R.was, e + 1), R.was[e + 1])
            <==> FrameOf(R.was[e + 1]) == FrameOf(trace[e].phys)
  {
    SpillsHere(L, R, trace, e);
    SpilledLater(L, R, trace, e, k, FrameOf(trace[e].phys));
  }

  lemma SpilledLater(L: Layout, R: Loop, trace: seq<State>, e: nat, k: nat, f: FrameNo)
    requires Trace(L, R, trace) && e + 1 < k < |trace| && PageLeft(trace[e]) && FIRST_PAGE <= NextPage(trace[e])
    requires Spilled(L, trace[e], trace[e + 1]) && f == FrameOf(trace[e].phys)
    ensures Leads(L, trace[k], NewWord(trace[0].alloc, R.was, e + 1), R.was[e + 1]) <==> FrameOf(R.was[e + 1]) == f
  {
    var q := PageBehind(trace[e]);
    TraceAlloc(L, R, trace, e + 1);
    StillLeads(L, R, trace, e + 1, k, q, Leaf(f, true));
    LeadsSeen(L, trace[k], q, R.was[e + 1]);
    assert Granted(trace[0].alloc, e + 1) == q;
  }

  lemma StillLeads(L: Layout, R: Loop, trace: seq<State>, i: nat, k: nat, q: PageNo, leaf: Leaf)
    requires Trace(L, R, trace) && i <= k < |trace| && q in Pages(L, trace[i]) && Pages(L, trace[i])[q] == leaf
    ensures q in Pages(L, trace[k]) && Pages(L, trace[k])[q] == leaf
  {
    TraceExtends(L, R, trace, i, k);
  }

  lemma SpillsHere(L: Layout, R: Loop, trace: seq<State>, e: nat)
    requires Trace(L, R, trace) && e + 1 < |trace|
    requires Covered(L, trace[e]) && Spills(AllocAfter(trace[0].alloc, e), R.was[e])
    ensures PageLeft(trace[e]) && FIRST_PAGE <= NextPage(trace[e]) && Spilled(L, trace[e], trace[e + 1])
  {
    TraceAlloc(L, R, trace, e);
    TraceSpills(L, R, trace, e);
  }

  lemma TraceSpills(L: Layout, R: Loop, trace: seq<State>, e: nat)
    requires Trace(L, R, trace) && e + 1 < |trace| && Covered(L, trace[e]) && Spills(trace[e].alloc, R.was[e])
    ensures PageLeft(trace[e]) && FIRST_PAGE <= NextPage(trace[e]) && Spilled(L, trace[e], trace[e + 1])
    ensures !Covered(L, trace[e + 1])
  {
    assert TraceStep(L, R, trace, e);
  }

  /** No pointer leads to a frame that the next n demand faults could be given. */
  predicate Apart(phys: Word, was: seq<Word>) {
    forall j: nat | j < |was| :: FrameOf(was[j]) < FrameOf(phys) || FrameOf(phys) + |was| <= FrameOf(was[j])
  }

  lemma {:induction false} FirstSpill(a: Allocator, was: seq<Word>, k: nat) returns (e: nat)
    requires k <= |was| && !NoSpill(a, was, k)
    ensures e < k && NoSpill(a, was, e) && Spills(AllocAfter(a, e), was[e])
    decreases k
  {
    if NoSpill(a, was, k - 1) {
      e := k - 1;
    } else {
      e := FirstSpill(a, was, k - 1);
    }
  }

  /** For pointers apart from the demand frames to come: at the end all words lead to their tables and the
      index covers if and only if no table spilled. */
  lemma RewrittenExactly(L: Layout, R: Loop, trace: seq<State>)
    requires Trace(L, R, trace) && |trace| == R.n() + 1 && Covered(L, trace[0]) && Apart(trace[0].phys, R.was)
    ensures SoundAt(L, trace[0].alloc, R.was, trace[R.n()], R.n()) <==> NoSpill(trace[0].alloc, R.was, R.n())
  {
    RewriteExactly(L, R, trace, R.n());
    if NoSpill(trace[0].alloc, R.was, R.n()) {
      assert SoundAt(L, trace[0].alloc, R.was, trace[R.n()], R.n());
    } else {
      SpilledUnsound(L, R, trace);
    }
  }

  lemma SpilledUnsound(L: Layout, R: Loop, trace: seq<State>)
    requires Trace(L, R, trace) && |trace| == R.n() + 1 && Covered(L, trace[0]) && Apart(trace[0].phys, R.was)
    requires !NoSpill(trace[0].alloc, R.was, R.n())
    ensures !SoundAt(L, trace[0].alloc, R.was, trace[R.n()], R.n())
  {
    var e := FirstSpill(trace[0].alloc, R.was, R.n());
    RewriteExactly(L, R, trace, e);
    assert SoundAt(L, trace[0].alloc, R.was, trace[e], e);
    if e + 1 == R.n() {
      LastSpillLoses(L, R, trace, e);
    } else {
      TracePhys(L, R, trace, e);
      SpillLosesNext(L, R, trace, e, R.n());
      assert FrameOf(R.was[e + 1]) != FrameOf(trace[e].phys);
      assert !Leads(L, trace[R.n()], NewWord(trace[0].alloc, R.was, e + 1), R.was[e + 1]);
    }
  }

  // ----- the array -----

  /** Offset of pointer e: 4 bytes apart in an RSDT, 8 in an XSDT. */
  function Slot(wide: bool, e: nat): nat { if wide then 8 * e else 4 * e }

  /** Low word of pointer e of an array at off. */
  function Pointer(fr: Frame, off: nat, wide: bool, e: nat): Word
    requires off + Slot(wide, e) <= 0xFFC
  {
    WordAt(fr, off + Slot(wide, e))
  }

  /** The frame with word e of the array at off replaced. */
  function PutPointer(fr: Frame, off: nat, e: nat, v: Word): Frame
    requires off + 4 * e <= 0xFFC
  {
    PutWord(fr, off + 4 * e, v)
  }

  /** The low words of the n pointers of a root table whose array starts at off. */
  function Pointers(fr: Frame, off: nat, wide: bool, n: nat): (r: seq<Word>)
    requires off + Slot(wide, n) <= 0x1000
  {
    seq(n, e requires 0 <= e < n => Pointer(fr, off, wide, e))
  }

  lemma PointerKept(fr: Frame, off: nat, e: nat, entry: nat, v: Word)
    requires e < entry && off + 4 * entry <= 0xFFC
    ensures Pointer(PutPointer(fr, off, entry, v), off, false, e) == Pointer(fr, off, false, e)
  {
    PutWordAt(fr, off + 4 * entry, v, off + 4 * e);
  }

  lemma PointerNow(fr: Frame, off: nat, entry: nat, v: Word)
    requires off + 4 * entry <= 0xFFC
    ensures Pointer(PutPointer(fr, off, entry, v), off, false, entry) == v
  {
    PutWordAt(fr, off + 4 * entry, v, off + 4 * entry);
  }

  /** In an XSDT too, the word written lies before every pointer that is still to be read. */
  lemma UnreadKept(fr: Frame, off: nat, wide: bool, e: nat, entry: nat, v: Word)
    requires entry < e && off + Slot(wide, e) <= 0xFFC && off + 4 * entry <= 0xFFC
    ensures Pointer(PutPointer(fr, off, entry, v), off, wide, e) == Pointer(fr, off, wide, e)
  {
    PutWordAt(fr, off + 4 * entry, v, off + Slot(wide, e));
  }

  /** The frame after the first k words of the array were replaced. */
  function Filled(fr: Frame, off: nat, words: seq<Word>, k: nat): Frame
    requires k <= |words| && off + 4 * |words| <= 0x1000
    decreases k, off
  {
    if k == 0 then fr else PutPointer(Filled(fr, off, words, k - 1), off, k - 1, words[k - 1])
  }

  /** The frame before the loop and after each iteration. */
  function Fillings(fr: Frame, off: nat, words: seq<Word>): seq<Frame>
    requires off + 4 * |words| <= 0x1000
  {
    seq(|words| + 1, k requires 0 <= k <= |words| => Filled(fr, off, words, k))
  }

  /** Each frame is the one before with its word replaced. */
  ghost predicate Fills(frames: seq<Frame>, off: nat, words: seq<Word>) {
    && |frames| == |words| + 1 && off + 4 * |words| <= 0x1000
    && forall k | 0 <= k < |words| :: frames[k + 1] == PutPointer(frames[k], off, k, words[k])
  }

  lemma FillingsFill(fr: Frame, off: nat, words: seq<Word>)
    requires off + 4 * |words| <= 0x1000
    ensures Fills(Fillings(fr, off, words), off, words) && Fillings(fr, off, words)[0] == fr
  {
    forall k | 0 <= k < |words|
      ensures Fillings(fr, off, words)[k + 1] == PutPointer(Fillings(fr, off, words)[k], off, k, words[k])
    {
      FilledNext(fr, off, words, k);
    }
  }

  lemma FilledNext(fr: Frame, off: nat, words: seq<Word>, k: nat)
    requires k < |words| && off + 4 * |words| <= 0x1000
    ensures Filled(fr, off, words, k + 1) == PutPointer(Filled(fr, off, words, k), off, k, words[k])
  {
  }

  /** The words replaced read as replaced, and the header before the array is as before. */
  lemma {:induction false} FilledWord(frames: seq<Frame>, off: nat, words: seq<Word>, k: nat, j: nat)
    requires Fills(frames, off, words) && j < k <= |words|
    ensures Pointer(frames[k], off, false, j) == words[j]
    decreases k
  {
    assert frames[(k - 1) + 1] == PutPointer(frames[k - 1], off, k - 1, words[k - 1]);
    if j == k - 1 {
      PointerNow(frames[j], off, j, words[j]);
    } else {
      FilledWord(frames, off, words, k - 1, j);
      PointerKept(frames[k - 1], off, j, k - 1, words[k - 1]);
    }
  }

  /** No pointer is overwritten before it has been read, the compacting pass over an XSDT included. */
  lemma {:induction false} FilledUnread(frames: seq<Frame>, off: nat, wide: bool, words: seq<Word>, k: nat, j: nat)
    requires Fills(frames, off, words) && k <= j < |words| && off + Slot(wide, |words|) <= 0x1000
    ensures Pointer(frames[k], off, wide, j) == Pointer(frames[0], off, wide, j)
    decreases k
  {
    if k > 0 {
      assert frames[(k - 1) + 1] == PutPointer(frames[k - 1], off, k - 1, words[k - 1]);
      FilledUnread(frames, off, wide, words, k - 1, j);
      UnreadKept(frames[k - 1], off, wide, j, k - 1, words[k - 1]);
    }
  }

  lemma {:induction false} FilledBefore(frames: seq<Frame>, off: nat, words: seq<Word>, k: nat, o: nat)
    requires Fills(frames, off, words) && k <= |words| && o + 4 <= off
    ensures WordAt(frames[k], o) == WordAt(frames[0], o)
    decreases k
  {
    if k > 0 {
      assert frames[(k - 1) + 1] == PutPointer(frames[k - 1], off, k - 1, words[k - 1]);
      FilledBefore(frames, off, words, k - 1, o);
      PutWordAt(frames[k - 1], off + 4 * (k - 1), words[k - 1], o);
    }
  }
}
