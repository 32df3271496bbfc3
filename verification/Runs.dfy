/** What every run of the paging subsystem keeps, and where its promises end. */
module Runs {
  import opened Hardware
  import opened Tables
  import opened Bitmap
  import opened Kernel

  // ----- one step -----

  /** A demand fault, window or not, returns with the faulting page translated and every earlier
      translation intact, so one page fewer of the 2^20 is untranslated. */
  lemma FaultProgress(L: Layout, s: State, slots: seq<Index>, va: Word)
    requires Good(L, s, slots) && FaultReady(L, s, va)
    ensures var s' := HandleFault(L, s, va);
            var p := PageOf(va);
            && Good(L, s', SlotsStep(L, s, slots, Fault(va)))
            && Extends(Pages(L, s), Pages(L, s'))
            && p !in Pages(L, s) && p in Pages(L, s')
            && Pages(L, s')[p] == Leaf(if DirOf(p) == 1023 then L.PoolFrame(|slots|) else FrameOf(s.phys), true)
            && |Pages(L, s)| < |Pages(L, s')|
  {
    var p := PageOf(va);
    var before, after := Pages(L, s), Pages(L, HandleFault(L, s, va));
    if DirOf(p) == 1023 {
      WindowRouteInstalls(L, s.tables, slots, IdxOf(p));
      assert p == PageAt(1023, IdxOf(p));
      Insert(before, p, Leaf(L.PoolFrame(|slots|), true));
    } else {
      FaultMaps(L, s, slots, va);
      FaultKeeps(L, s, slots, va);
    }
  }

  /** A fault in numbers: below the window the next 4 KiB from `cur_physaddr` are mapped, in the window the
      next pool table. */
  lemma FaultNumbers(L: Layout, s: State, slots: seq<Index>, va: Word)
    requires Good(L, s, slots) && FaultReady(L, s, va)
    ensures var s' := HandleFault(L, s, va);
            && Translate(s.tables.mem, L.pd, va) == None
            && (va < 0xFFC0_0000 ==> && Translate(s'.tables.mem, L.pd, va) == Some(s.phys + va % 0x1000)
                                     && s'.phys == s.phys + 0x1000)
            && (va >= 0xFFC0_0000 ==> && Translate(s'.tables.mem, L.pd, va) ==
                                         Some((L.pool + s.tables.issued) * 0x1000 + va % 0x1000)
                                      && s'.tables.issued == s.tables.issued + 1 && s'.phys == s.phys)
  {
    FaultLeads(L, s, slots, va);
    FaultCounts(L, s, slots, va);
  }

  lemma FaultLeads(L: Layout, s: State, slots: seq<Index>, va: Word)
    requires Good(L, s, slots) && FaultReady(L, s, va)
    ensures Translate(s.tables.mem, L.pd, va) == None
    ensures Translate(HandleFault(L, s, va).tables.mem, L.pd, va) ==
              Some((if va < 0xFFC0_0000 then s.phys else (L.pool + s.tables.issued) * 0x1000) + va % 0x1000)
  {
    var f := FaultLeaf(L, s, slots, va);
    LeafTranslates(Pages(L, s), Pages(L, HandleFault(L, s, va)), s.tables.mem, HandleFault(L, s, va).tables.mem,
                   L.pd, va, f);
    WholeFrame(s.phys);
  }

  lemma WholeFrame(phys: Word)
    ensures phys % 0x1000 == 0 ==> FrameOf(phys) * 0x1000 == phys
  {
  }

  lemma FaultLeaf(L: Layout, s: State, slots: seq<Index>, va: Word) returns (f: FrameNo)
    requires Good(L, s, slots) && FaultReady(L, s, va)
    ensures f == if va < 0xFFC0_0000 then FrameOf(s.phys) else L.pool + s.tables.issued
    ensures var s' := HandleFault(L, s, va);
            PageOf(va) !in Pages(L, s) && PageOf(va) in Pages(L, s') && Pages(L, s')[PageOf(va)] == Leaf(f, true)
  {
    FaultProgress(L, s, slots, va);
    WindowAddress(va);
    f := if DirOf(PageOf(va)) == 1023 then L.PoolFrame(|slots|) else FrameOf(s.phys);
  }

  lemma WindowAddress(va: Word)
    ensures DirOf(PageOf(va)) == 1023 <==> va >= 0xFFC0_0000
  {
  }

  lemma LeafTranslates(before: map<PageNo, Leaf>, after: map<PageNo, Leaf>, m: Memory, m': Memory, root: FrameNo,
                       va: Word, f: FrameNo)
    requires before == Space(m, root) && after == Space(m', root)
    requires PageOf(va) !in before && PageOf(va) in after && after[PageOf(va)] == Leaf(f, true)
    ensures Translate(m, root, va) == None && Translate(m', root, va) == Some(f * 0x1000 + va % 0x1000)
  {
  }

  lemma FaultCounts(L: Layout, s: State, slots: seq<Index>, va: Word)
    requires Good(L, s, slots) && FaultReady(L, s, va)
    ensures var s' := HandleFault(L, s, va);
            if va < 0xFFC0_0000 then s'.phys == s.phys + 0x1000
            else s'.phys == s.phys && s'.tables.issued == s.tables.issued + 1
  {
    WindowAddress(va);
    if va < 0xFFC0_0000 {
      DemandBound(L, s, slots);
    } else {
      WindowRouteInstalls(L, s.tables, slots, IdxOf(PageOf(va)));
    }
  }

  lemma FaultMaps(L: Layout, s: State, slots: seq<Index>, va: Word)
    requires Good(L, s, slots) && FaultReady(L, s, va) && DirOf(PageOf(va)) != 1023
    ensures Maps(Pages(L, s), Pages(L, HandleFault(L, s, va)), PageOf(va), Leaf(FrameOf(s.phys), true))
  {
    assert PageOf(va) !in Pages(L, s);
    MapUpdates(L, s, slots, PageOf(va), FrameOf(s.phys));
  }

  lemma FaultKeeps(L: Layout, s: State, slots: seq<Index>, va: Word)
    requires Good(L, s, slots) && FaultReady(L, s, va) && DirOf(PageOf(va)) != 1023
    ensures Good(L, HandleFault(L, s, va), SlotsStep(L, s, slots, Fault(va)))
  {
    FaultMaps(L, s, slots, va);
    MapStructure(L, s, slots, PageOf(va), FrameOf(s.phys));
    DemandBound(L, s, slots);
    NextDemand(s.phys, Pages(L, s), Pages(L, HandleFault(L, s, va)), PageOf(va));
  }

  lemma NextDemand(phys: Word, before: map<PageNo, Leaf>, after: map<PageNo, Leaf>, p: PageNo)
    requires Accounted(phys, before) && phys + 0x1000 < 0x1_0000_0000
    requires Maps(before, after, p, Leaf(FrameOf(phys), true))
    ensures FrameOf(NextPhys(phys)) == FrameOf(phys) + 1
    ensures Accounted(NextPhys(phys), after)
  {
    NextFrame(phys);
  }

  lemma NextFrame(phys: Word)
    requires phys % 0x1000 == 0 && phys + 0x1000 < 0x1_0000_0000
    ensures NextPhys(phys) % 0x1000 == 0 && FrameOf(NextPhys(phys)) == FrameOf(phys) + 1
    ensures DemandCount(NextPhys(phys)) == DemandCount(phys) + 1
  {
  }

  /** Page p below the window was unmapped and now has the leaf; all else below the window is as
      before, and nothing was lost. */
  ghost predicate Maps(before: map<PageNo, Leaf>, after: map<PageNo, Leaf>, p: PageNo, leaf: Leaf) {
    && Extends(before, after)
    && p !in before && p in after && after[p] == leaf
    && BelowWindow(after) == BelowWindow(before) + {p}
    && |before| < |after|
    && |BelowWindow(after)| == |BelowWindow(before)| + 1
  }

  /** `map_page` on an unmapped page below the window. */
  lemma MapUpdates(L: Layout, s: State, slots: seq<Index>, p: PageNo, frame: FrameNo)
    requires Good(L, s, slots) && p < WINDOW && TableLeft(L, s.tables, DirOf(p))
    requires p !in Pages(L, s)
    ensures var tables' := MapPage(L, s.tables, DirOf(p), IdxOf(p), Entry(frame, 3));
            Maps(Pages(L, s), Space(tables'.mem, L.pd), p, Leaf(frame, true))
  {
    var d, t := DirOf(p), IdxOf(p);
    assert p == PageAt(d, t) && d != 1023;
    MapPageRefines(L, s.tables, slots, d, t, Entry(frame, 3));
    if NeedsTable(L, s.tables.mem, d) {
      TwoInserts(Pages(L, s), PageAt(1023, d), Leaf(L.PoolFrame(|slots|), true), p, Leaf(frame, true));
    } else {
      Insert(Pages(L, s), p, Leaf(frame, true));
    }
  }

  lemma MapStructure(L: Layout, s: State, slots: seq<Index>, p: PageNo, frame: FrameNo)
    requires Good(L, s, slots) && p < WINDOW && TableLeft(L, s.tables, DirOf(p))
    ensures var tables' := MapPage(L, s.tables, DirOf(p), IdxOf(p), Entry(frame, 3));
            var slots' := SlotsAfter(L, s.tables.mem, slots, DirOf(p));
            && Inv(L, tables'.mem, slots') && tables'.issued == |slots'|
            && (p in Pages(L, s) ==> tables' == s.tables)
  {
    assert p == PageAt(DirOf(p), IdxOf(p)) && DirOf(p) != 1023;
    MapPageRefines(L, s.tables, slots, DirOf(p), IdxOf(p), Entry(frame, 3));
  }

  /** Besides page p, at most the window page of p's table is new. */
  ghost predicate OnlyAdds(before: map<PageNo, Leaf>, after: map<PageNo, Leaf>, p: PageNo) {
    Extends(before, after) && forall q | q in after :: q in before || q == p || q == PageAt(1023, DirOf(p))
  }

  lemma MapAdds(L: Layout, s: State, slots: seq<Index>, p: PageNo, frame: FrameNo)
    requires Good(L, s, slots) && p < WINDOW && TableLeft(L, s.tables, DirOf(p))
    ensures var tables' := MapPage(L, s.tables, DirOf(p), IdxOf(p), Entry(frame, 3));
            && OnlyAdds(Pages(L, s), Space(tables'.mem, L.pd), p)
            && (forall f: FrameNo | !L.IsTable(f) :: tables'.mem[f] == s.tables.mem[f])
  {
    MapAddsPages(L, s, slots, p, frame);
    MapKeepsData(L, s, slots, p, Entry(frame, 3));
  }

  lemma MapAddsPages(L: Layout, s: State, slots: seq<Index>, p: PageNo, frame: FrameNo)
    requires Good(L, s, slots) && p < WINDOW && TableLeft(L, s.tables, DirOf(p))
    ensures OnlyAdds(Pages(L, s), Space(MapPage(L, s.tables, DirOf(p), IdxOf(p), Entry(frame, 3)).mem, L.pd), p)
  {
    var d, t, before := DirOf(p), IdxOf(p), Pages(L, s);
    assert p == PageAt(d, t) && d != 1023;
    MapPageRefines(L, s.tables, slots, d, t, Entry(frame, 3));
    if p !in before {
      if NeedsTable(L, s.tables.mem, d) {
        AddsTwo(before, PageAt(1023, d), Leaf(L.PoolFrame(|slots|), true), p, Leaf(frame, true));
      } else {
        AddsOne(before, p, Leaf(frame, true));
      }
    }
  }

  lemma AddsOne(before: map<PageNo, Leaf>, p: PageNo, leaf: Leaf)
    requires p !in before
    ensures OnlyAdds(before, before[p := leaf], p)
  {
  }

  lemma AddsTwo(before: map<PageNo, Leaf>, w: PageNo, window: Leaf, p: PageNo, leaf: Leaf)
    requires w !in before && p !in before && w == PageAt(1023, DirOf(p))
    ensures OnlyAdds(before, before[w := window][p := leaf], p)
  {
  }

  lemma MapKeepsData(L: Layout, s: State, slots: seq<Index>, p: PageNo, e: Word)
    requires Good(L, s, slots) && p < WINDOW && TableLeft(L, s.tables, DirOf(p))
    ensures forall f: FrameNo | !L.IsTable(f) :: MapPage(L, s.tables, DirOf(p), IdxOf(p), e).mem[f] == s.tables.mem[f]
  {
    assert DirOf(p) != 1023;
    forall f: FrameNo | !L.IsTable(f)
      ensures MapPage(L, s.tables, DirOf(p), IdxOf(p), e).mem[f] == s.tables.mem[f]
    {
      MapPageFrame(L, s.tables, slots, DirOf(p), IdxOf(p), e, f);
    }
  }

  /** A fault changes nothing else: no third page is translated, no frame but the tables is written
      to, no page is taken from the index. */
  lemma FaultOnlyAdds(L: Layout, s: State, slots: seq<Index>, va: Word)
    requires Good(L, s, slots) && FaultReady(L, s, va)
    ensures var s' := HandleFault(L, s, va);
            && OnlyAdds(Pages(L, s), Pages(L, s'), PageOf(va))
            && (forall f: FrameNo | !L.IsTable(f) :: s'.tables.mem[f] == s.tables.mem[f])
            && s'.alloc == s.alloc
  {
    var p := PageOf(va);
    if DirOf(p) == 1023 {
      WindowRouteInstalls(L, s.tables, slots, IdxOf(p));
      assert p == PageAt(1023, IdxOf(p));
    } else {
      MapAdds(L, s, slots, p, FrameOf(s.phys));
    }
  }

  lemma TwoInserts(before: map<PageNo, Leaf>, w: PageNo, window: Leaf, p: PageNo, leaf: Leaf)
    requires w !in before && p !in before && p < WINDOW <= w
    ensures Maps(before, before[w := window][p := leaf], p, leaf)
  {
    Insert(before, w, window);
    Insert(before[w := window], p, leaf);
  }

  lemma Insert(before: map<PageNo, Leaf>, p: PageNo, leaf: Leaf)
    requires p !in before
    ensures var after := before[p := leaf];
            && Extends(before, after) && |after| == |before| + 1
            && BelowWindow(after) == (if p < WINDOW then BelowWindow(before) + {p} else BelowWindow(before))
            && |BelowWindow(after)| == |BelowWindow(before)| + (if p < WINDOW then 1 else 0)
  {
    var after := before[p := leaf];
    assert BelowWindow(after) == if p < WINDOW then BelowWindow(before) + {p} else BelowWindow(before);
  }

  lemma MapKeeps(L: Layout, s: State, slots: seq<Index>, frame: FrameNo)
    requires Good(L, s, slots) && MapReady(L, s)
    ensures var s' := FindAndMap(L, s, frame);
            && Good(L, s', SlotsStep(L, s, slots, Map(frame)))
            && Extends(Pages(L, s), Pages(L, s'))
  {
    var p := s.alloc.Find().0.value;
    FindLowest(s.alloc);
    MapStructure(L, s, slots, p, frame);
    if p !in Pages(L, s) {
      MapUpdates(L, s, slots, p, frame);
    }
  }

  /** With no clear page left, a request maps page 0, and the next one finds it taken and aborts. */
  lemma NullKeeps(L: Layout, s: State, slots: seq<Index>, frame: FrameNo)
    requires Good(L, s, slots) && NullReady(L, s)
    ensures var s', p := MapNull(L, s, frame), PageGiven(s);
            && Good(L, s', SlotsAfter(L, s.tables.mem, slots, DirOf(p))) && Extends(Pages(L, s), Pages(L, s'))
            && p in Pages(L, s') && (p in Pages(L, s) ==> s' == s)
            && (p !in Pages(L, s) ==> Pages(L, s')[p] == Leaf(frame, true))
  {
    var p := PageGiven(s);
    MapStructure(L, s, slots, p, frame);
    if p !in Pages(L, s) {
      MapUpdates(L, s, slots, p, frame);
    }
  }

  lemma StepKeeps(L: Layout, s: State, slots: seq<Index>, e: Event)
    requires Good(L, s, slots) && Ready(L, s, e)
    ensures Good(L, Step(L, s, e), SlotsStep(L, s, slots, e))
    ensures Extends(Pages(L, s), Pages(L, Step(L, s, e)))
    ensures slots <= SlotsStep(L, s, slots, e)
  {
    match e
    case Fault(va) => FaultProgress(L, s, slots, va);
    case Map(frame) => MapKeeps(L, s, slots, frame);
    case Write(va, v) => DataWriteKeeps(L, s.tables.mem, WriteData(L, s, va, v).tables.mem, slots);
  }

  // ----- every run -----

  ghost function SlotsFinal(L: Layout, s: State, slots: seq<Index>, es: seq<Event>): seq<Index>
    requires L.Valid() && Run(L, s, es)
    decreases |es|
  {
    if es == [] then slots else SlotsFinal(L, Step(L, s, es[0]), SlotsStep(L, s, slots, es[0]), es[1..])
  }

  /** Every run keeps the table structure and every translation it ever made. */
  lemma {:induction false} RunKeeps(L: Layout, s: State, slots: seq<Index>, es: seq<Event>)
    requires Good(L, s, slots) && Run(L, s, es)
    ensures Good(L, Final(L, s, es), SlotsFinal(L, s, slots, es))
    ensures slots <= SlotsFinal(L, s, slots, es)
    ensures Extends(Pages(L, s), Pages(L, Final(L, s, es)))
    decreases |es|
  {
    if es != [] {
      StepKeeps(L, s, slots, es[0]);
      RunKeeps(L, Step(L, s, es[0]), SlotsStep(L, s, slots, es[0]), es[1..]);
    }
  }

  /** Throughout every run the page the terminal writes to, from 0xC03FF000 on, leads to text memory at
      0xB8000 and can be written, and no terminal output reaches a page table. */
  lemma VgaPageStays(L: Layout, s: State, slots: seq<Index>, es: seq<Event>, va: Word)
    requires Good(L, s, slots) && Run(L, s, es) && 0xC03F_F000 <= va < 0xC040_0000
    ensures Translate(Final(L, s, es).tables.mem, L.pd, va) == Some(va - 0xC03F_F000 + 0xB_8000)
    ensures WalkPage(Final(L, s, es).tables.mem, L.pd, PageOf(va)) == Some(Leaf(0xB8, true)) && !L.Reserved(0xB8)
  {
    RunKeeps(L, s, slots, es);
    VgaTranslates(L, Final(L, s, es).tables.mem, SlotsFinal(L, s, slots, es), va);
  }

  lemma VgaTranslates(L: Layout, m: Memory, slots: seq<Index>, va: Word)
    requires Inv(L, m, slots) && 0xC03F_F000 <= va < 0xC040_0000
    ensures WalkPage(m, L.pd, PageOf(va)) == Some(Leaf(0xB8, true)) && !L.Reserved(0xB8)
    ensures Translate(m, L.pd, va) == Some(va - 0xC03F_F000 + 0xB_8000)
  {
    assert PageOf(va) == PageAt(768, 1023);
  }

  /** In every run the kernel image is seen where it was linked, 0xC0000000 above its physical place;
      so the tables of the pool are found through `kernel_PTs` at any time. */
  lemma KernelStays(L: Layout, s: State, slots: seq<Index>, es: seq<Event>, a: Word)
    requires Good(L, s, slots) && Run(L, s, es) && FrameOf(a) < L.end
    ensures 0xC000_0000 + a < 0x1_0000_0000
    ensures Translate(Final(L, s, es).tables.mem, L.pd, 0xC000_0000 + a) == Some(a)
  {
    RunKeeps(L, s, slots, es);
    KernelTranslates(L, Final(L, s, es).tables.mem, SlotsFinal(L, s, slots, es), a);
  }

  // ----- demand faults -----

  function FaultCount(es: seq<Event>): nat {
    if es == [] then 0 else (if es[0].Fault? then 1 else 0) + FaultCount(es[1..])
  }

  lemma ExtendsSize(a: map<PageNo, Leaf>, b: map<PageNo, Leaf>)
    requires Extends(a, b)
    ensures |a| <= |b|
  {
    SubsetSize(a.Keys, b.Keys);
  }

  /** Each fault uses up an untranslated page, so a run has at most as many faults as pages were
      untranslated at its start: every sequence of faults is finite. */
  lemma {:induction false} FaultsBounded(L: Layout, s: State, slots: seq<Index>, es: seq<Event>)
    requires Good(L, s, slots) && Run(L, s, es)
    ensures |Pages(L, s)| + FaultCount(es) <= |Pages(L, Final(L, s, es))| <= PAGES
    decreases |es|
  {
    if es == [] {
      BoundedSize(Pages(L, s).Keys, PAGES);
    } else {
      var s1 := Step(L, s, es[0]);
      StepKeeps(L, s, slots, es[0]);
      ExtendsSize(Pages(L, s), Pages(L, s1));
      if es[0].Fault? {
        FaultProgress(L, s, slots, es[0].va);
      }
      FaultsBounded(L, s1, SlotsStep(L, s, slots, es[0]), es[1..]);
    }
  }

  lemma {:induction false} BoundedSize(s: set<PageNo>, n: nat)
    requires n <= PAGES && forall p | p in s :: p < n
    ensures |s| <= n
  {
    if n > 0 {
      BoundedSize(s - {n - 1}, n - 1);
    } else {
      assert s == {};
    }
  }

  /** A page that is translated does not fault in the rest of the run. */
  lemma {:induction false} NoFaultOn(L: Layout, s: State, slots: seq<Index>, es: seq<Event>, p: PageNo, j: nat)
    requires Good(L, s, slots) && Run(L, s, es) && p in Pages(L, s)
    requires j < |es| && es[j].Fault?
    ensures PageOf(es[j].va) != p
    decreases |es|
  {
    if j > 0 {
      StepKeeps(L, s, slots, es[0]);
      NoFaultOn(L, Step(L, s, es[0]), SlotsStep(L, s, slots, es[0]), es[1..], p, j - 1);
    }
  }

  /** No event is a fault on page p. */
  predicate NoneOn(es: seq<Event>, p: PageNo) {
    forall k | 0 <= k < |es| && es[k].Fault? :: PageOf(es[k].va) != p
  }

  /** No two events are faults on the same page. */
  predicate FaultsDistinct(es: seq<Event>) {
    es != [] ==> (es[0].Fault? ==> NoneOn(es[1..], PageOf(es[0].va))) && FaultsDistinct(es[1..])
  }

  lemma FirstFaultOnce(L: Layout, s: State, slots: seq<Index>, es: seq<Event>)
    requires Good(L, s, slots) && Run(L, s, es) && es != [] && es[0].Fault?
    ensures NoneOn(es[1..], PageOf(es[0].va))
  {
    var s1, rest := Step(L, s, es[0]), es[1..];
    FaultProgress(L, s, slots, es[0].va);
    forall k | 0 <= k < |rest| && rest[k].Fault?
      ensures PageOf(rest[k].va) != PageOf(es[0].va)
    {
      NoFaultOn(L, s1, SlotsStep(L, s, slots, es[0]), rest, PageOf(es[0].va), k);
    }
  }

  lemma {:induction false} FaultsDiffer(L: Layout, s: State, slots: seq<Index>, es: seq<Event>)
    requires Good(L, s, slots) && Run(L, s, es)
    ensures FaultsDistinct(es)
    decreases |es|
  {
    if es != [] {
      StepKeeps(L, s, slots, es[0]);
      FaultsDiffer(L, Step(L, s, es[0]), SlotsStep(L, s, slots, es[0]), es[1..]);
      if es[0].Fault? {
        FirstFaultOnce(L, s, slots, es);
      }
    }
  }

  lemma {:induction false} DistinctPages(es: seq<Event>, i: nat, j: nat)
    requires FaultsDistinct(es) && i < j < |es| && es[i].Fault? && es[j].Fault?
    ensures PageOf(es[i].va) != PageOf(es[j].va)
    decreases i
  {
    var rest := es[1..];
    assert rest[j - 1] == es[j];
    if i > 0 {
      assert rest[i - 1] == es[i];
      DistinctPages(rest, i - 1, j - 1);
    }
  }

  /** No page faults twice in a run. */
  lemma FaultsOnce(L: Layout, s: State, slots: seq<Index>, es: seq<Event>, i: nat, j: nat)
    requires Good(L, s, slots) && Run(L, s, es)
    requires i < j < |es| && es[i].Fault? && es[j].Fault?
    ensures PageOf(es[i].va) != PageOf(es[j].va)
  {
    FaultsDiffer(L, s, slots, es);
    DistinctPages(es, i, j);
  }

  /** The frames `find_free_physaddr` hands to the faults of a run. */
  ghost function DemandFrames(L: Layout, s: State, es: seq<Event>): seq<FrameNo>
    requires L.Valid() && Run(L, s, es)
    decreases |es|
  {
    if es == [] then []
    else
      (if TakesFrame(es[0]) then [FrameOf(s.phys)] else [])
      + DemandFrames(L, Step(L, s, es[0]), es[1..])
  }

  predicate TakesFrame(e: Event) {
    e.Fault? && DirOf(PageOf(e.va)) != 1023
  }

  lemma DemandStep(L: Layout, s: State, slots: seq<Index>, e: Event)
    requires Good(L, s, slots) && Ready(L, s, e)
    ensures var phys := Step(L, s, e).phys;
            && FrameOf(phys) == FrameOf(s.phys) + (if TakesFrame(e) then 1 else 0)
            && DemandCount(phys) == DemandCount(s.phys) + (if TakesFrame(e) then 1 else 0)
  {
    DemandBound(L, s, slots);
    NextFrame(s.phys);
  }

  lemma {:induction false} DemandFramesAscend(L: Layout, s: State, slots: seq<Index>, es: seq<Event>)
    requires Good(L, s, slots) && Run(L, s, es)
    ensures DemandCount(s.phys) + |DemandFrames(L, s, es)| == DemandCount(Final(L, s, es).phys)
    ensures Consecutive(FrameOf(s.phys), DemandFrames(L, s, es))
    decreases |es|
  {
    if es != [] {
      StepKeeps(L, s, slots, es[0]);
      DemandStep(L, s, slots, es[0]);
      var s1 := Step(L, s, es[0]);
      DemandFramesAscend(L, s1, SlotsStep(L, s, slots, es[0]), es[1..]);
      if TakesFrame(es[0]) {
        ConsecutiveMore(FrameOf(s.phys), DemandFrames(L, s1, es[1..]));
      }
    }
  }

  /** From boot on, the faults are given the frames 0x10000, 0x10001 and so on. */
  lemma DemandNumbers(L: Layout, s: State, slots: seq<Index>, es: seq<Event>, i: nat)
    requires Good(L, s, slots) && Run(L, s, es) && s.phys == 0x1000_0000
    requires i < |DemandFrames(L, s, es)|
    ensures DemandFrames(L, s, es)[i] == 0x1_0000 + i
  {
    DemandFramesAscend(L, s, slots, es);
  }

  ghost predicate Consecutive(first: nat, frames: seq<FrameNo>) {
    forall i | 0 <= i < |frames| :: frames[i] == first + i
  }

  lemma ConsecutiveMore(first: FrameNo, rest: seq<FrameNo>)
    requires Consecutive(first + 1, rest)
    ensures Consecutive(first, [first] + rest)
  {
  }

  /** Demand frames are pairwise distinct and hold neither kernel nor tables; at most 263168 of
      the 983040 frames above 0x10000000 are ever handed out. */
  lemma DemandFramesFresh(L: Layout, s: State, slots: seq<Index>, es: seq<Event>, i: nat)
    requires Good(L, s, slots) && Run(L, s, es)
    requires i < |DemandFrames(L, s, es)|
    ensures forall j | 0 <= j < |DemandFrames(L, s, es)| && j != i ::
              DemandFrames(L, s, es)[j] != DemandFrames(L, s, es)[i]
    ensures L.end <= DemandFrames(L, s, es)[i] && !L.Reserved(DemandFrames(L, s, es)[i])
    ensures |DemandFrames(L, s, es)| <= 263168
    ensures 0x1000_0000 <= s.phys <= Final(L, s, es).phys <= 0x1000_0000 + 263168 * 0x1000
  {
    var frames := DemandFrames(L, s, es);
    DemandRange(L, s, slots, es);
    HighFrames(L, s.phys, frames, i);
  }

  lemma DemandRange(L: Layout, s: State, slots: seq<Index>, es: seq<Event>)
    requires Good(L, s, slots) && Run(L, s, es)
    ensures Consecutive(FrameOf(s.phys), DemandFrames(L, s, es)) && |DemandFrames(L, s, es)| <= 263168
    ensures DEMAND_BASE <= s.phys <= Final(L, s, es).phys <= DEMAND_BASE + 263168 * 0x1000
  {
    DemandFramesAscend(L, s, slots, es);
    RunKeeps(L, s, slots, es);
    var s' := Final(L, s, es);
    DemandBound(L, s', SlotsFinal(L, s, slots, es));
    assert DemandCount(s'.phys) <= 263168 && Accounted(s.phys, Pages(L, s)) && Accounted(s'.phys, Pages(L, s'));
    PhysRange(s.phys, s'.phys);
  }

  lemma HighFrames(L: Layout, phys: Word, frames: seq<FrameNo>, i: nat)
    requires L.Valid() && DEMAND_BASE <= phys && Consecutive(FrameOf(phys), frames) && i < |frames|
    ensures forall j | 0 <= j < |frames| && j != i :: frames[j] != frames[i]
    ensures L.end <= frames[i] && !L.Reserved(frames[i])
  {
  }

  lemma PhysRange(phys: Word, phys': Word)
    requires phys % 0x1000 == phys' % 0x1000 == 0
    requires 0 <= DemandCount(phys) <= DemandCount(phys') <= 263168
    ensures DEMAND_BASE <= phys <= phys' <= DEMAND_BASE + 263168 * 0x1000
    ensures 0x1_0000 <= FrameOf(phys)
  {
  }

  /** Every run keeps the structure in its plain form. */
  lemma RunKeepsStructure(L: Layout, s: State, slots: seq<Index>, es: seq<Event>)
    requires Good(L, s, slots) && Run(L, s, es)
    ensures Structured(L, Final(L, s, es).tables.mem, Final(L, s, es).tables.issued)
  {
    RunKeeps(L, s, slots, es);
    StructureHolds(L, Final(L, s, es).tables.mem, SlotsFinal(L, s, slots, es));
  }

  // ----- where the pool ends -----

  /** A fault at the first page of each of the directory slots n - 1, ..., 0. */
  function FaultEach(n: nat): seq<Event>
    requires n <= 768
  {
    if n == 0 then [] else [Fault((n - 1) * 0x40_0000)] + FaultEach(n - 1)
  }

  /** The pool can be used up, by n demand faults in n different slots. */
  lemma {:induction false} FaultsUseTables(L: Layout, s: State, slots: seq<Index>, n: nat)
    requires Good(L, s, slots) && n <= 768 && |slots| + n <= 256
    requires forall d: Index | d < n :: NeedsTable(L, s.tables.mem, d)
    ensures Run(L, s, FaultEach(n))
    ensures Final(L, s, FaultEach(n)).tables.issued == |slots| + n
    ensures forall d: Index | n <= d && NeedsTable(L, s.tables.mem, d) ::
              NeedsTable(L, Final(L, s, FaultEach(n)).tables.mem, d)
    decreases n
  {
    if n > 0 {
      var e, rest := Fault((n - 1) * 0x40_0000), FaultEach(n - 1);
      var s1, slots1 := FaultTakesTable(L, s, slots, n - 1);
      FaultsUseTables(L, s1, slots1, n - 1);
      RunCons(L, s, e, rest);
    }
  }

  lemma FaultTakesTable(L: Layout, s: State, slots: seq<Index>, d: Index) returns (s': State, slots': seq<Index>)
    requires Good(L, s, slots) && |slots| < 256 && d < 768 && NeedsTable(L, s.tables.mem, d)
    ensures FaultReady(L, s, d * 0x40_0000) && s' == Step(L, s, Fault(d * 0x40_0000))
    ensures Good(L, s', slots') && |slots'| == |slots| + 1
    ensures forall d': Index | d' != d && NeedsTable(L, s.tables.mem, d') :: NeedsTable(L, s'.tables.mem, d')
  {
    FaultTouches(L, s, slots, d);
    var e := Fault(d * 0x40_0000);
    s', slots' := Step(L, s, e), SlotsStep(L, s, slots, e);
    StepKeeps(L, s, slots, e);
  }

  lemma RunCons(L: Layout, s: State, e: Event, es: seq<Event>)
    requires L.Valid() && Ready(L, s, e) && Run(L, Step(L, s, e), es)
    ensures Run(L, s, [e] + es) && Final(L, s, [e] + es) == Final(L, Step(L, s, e), es)
  {
    assert ([e] + es)[1..] == es;
  }

  lemma FaultTouches(L: Layout, s: State, slots: seq<Index>, d: Index)
    requires Good(L, s, slots) && |slots| < 256 && d < 768 && NeedsTable(L, s.tables.mem, d)
    ensures PageOf(d * 0x40_0000) == PageAt(d, 0)
    ensures FaultReady(L, s, d * 0x40_0000)
    ensures forall d': Index | d' != d && NeedsTable(L, s.tables.mem, d') ::
              NeedsTable(L, HandleFault(L, s, d * 0x40_0000).tables.mem, d')
  {
    SlotAddress(d);
  }

  lemma SlotAddress(d: Index)
    requires d < 768
    ensures PageOf(d * 0x40_0000) == PageAt(d, 0)
  {
  }

  /** From any state with enough directory slots still without a table, as many demand faults as
      tables are left use up the pool. A further fault in slot d is no longer within the model's
      steps: `map_page` enters the frame behind the pool and zeroes it. */
  lemma PoolRunsOut(L: Layout, s: State, slots: seq<Index>, n: nat, d: Index)
    requires Good(L, s, slots) && n == 256 - |slots| && n <= d < 768
    requires forall k: Index | k < n || k == d :: NeedsTable(L, s.tables.mem, k)
    ensures Run(L, s, FaultEach(n))
    ensures var s' := Final(L, s, FaultEach(n));
            && s'.tables.issued == 256 && NeedsTable(L, s'.tables.mem, d)
            && (!L.Reserved(L.PoolFrame(256)) ==> FaultOverruns(L, s', d))
  {
    FaultsUseTables(L, s, slots, n);
    RunKeeps(L, s, slots, FaultEach(n));
    if !L.Reserved(L.PoolFrame(256)) {
      FaultBehindPool(L, Final(L, s, FaultEach(n)), SlotsFinal(L, s, slots, FaultEach(n)), d);
    }
  }

  /** The mapping that the handler makes for a fault on the first page of slot d. */
  ghost predicate FaultOverruns(L: Layout, s: State, d: Index)
    requires L.Valid() && s.tables.issued == 256
  {
    var e := Entry(FrameOf(s.phys), 3);
    Overrun(L, s.tables, d, 0, e, MapPage(L, s.tables, d, 0, e))
  }

  lemma FaultBehindPool(L: Layout, s: State, slots: seq<Index>, d: Index)
    requires Good(L, s, slots) && s.tables.issued == 256 && d < 768
    requires NeedsTable(L, s.tables.mem, d) && !L.Reserved(L.PoolFrame(256))
    ensures FaultOverruns(L, s, d)
  {
    MapPageOverruns(L, s.tables, slots, d, 0, Entry(FrameOf(s.phys), 3));
  }
}
