/** Find-then-map requests: when the page allocator and the mapper together deliver what the
    caller asked for, and how many pool tables such requests can use. */
module Requests {
  import opened Hardware
  import opened Tables
  import opened Bitmap
  import opened Kernel
  import opened Runs

  /** Every translated page from 0xC0000000 up to the window is marked in the index. */
  ghost predicate Covered(L: Layout, s: State) {
    forall p | p in Pages(L, s) && FIRST_PAGE <= p < WINDOW :: Taken(s.alloc.bits, p)
  }

  /** A request delivers its frame exactly when the lowest clear page was untranslated, or by
      accident led there already. Otherwise `map_page` aborts and the caller gets another frame. */
  lemma RequestDelivers(L: Layout, s: State, slots: seq<Index>, frame: FrameNo)
    requires Good(L, s, slots) && MapReady(L, s)
    ensures var p := s.alloc.Find().0.value;
            var after := Pages(L, FindAndMap(L, s, frame));
            && p in after
            && (after[p] == Leaf(frame, true) <==>
                p !in Pages(L, s) || Pages(L, s)[p] == Leaf(frame, true))
            && (p in Pages(L, s) ==> after == Pages(L, s))
            && OnlyAdds(Pages(L, s), after, p)
  {
    var p := s.alloc.Find().0.value;
    MapStructure(L, s, slots, p, frame);
    MapAdds(L, s, slots, p, frame);
    if p !in Pages(L, s) {
      MapUpdates(L, s, slots, p, frame);
    }
  }

  /** With a covering index the lowest clear page is never translated already. */
  lemma CoveredDelivers(L: Layout, s: State, slots: seq<Index>, frame: FrameNo)
    requires Good(L, s, slots) && Covered(L, s) && MapReady(L, s)
    ensures var p := s.alloc.Find().0.value;
            && p !in Pages(L, s) && p in Pages(L, FindAndMap(L, s, frame))
            && Pages(L, FindAndMap(L, s, frame))[p] == Leaf(frame, true)
  {
    FindLowest(s.alloc);
    RequestDelivers(L, s, slots, frame);
  }

  /** The index can be overtaken: a demand fault on the lowest clear page leaves its bit clear, so
      the next request is given that page, `map_page` aborts, and the page keeps the demand frame. */
  lemma FaultSpoilsRequest(L: Layout, s: State, slots: seq<Index>, va: Word, frame: FrameNo)
    requires Good(L, s, slots) && FaultReady(L, s, va) && PageLeft(s)
    requires PageOf(va) == s.alloc.Find().0.value && frame != FrameOf(s.phys)
    ensures var s1 := HandleFault(L, s, va);
            && Good(L, s1, SlotsStep(L, s, slots, Fault(va)))
            && MapReady(L, s1) && !Covered(L, s1)
            && s1.alloc.Find().0 == Some(PageOf(va))
            && PageOf(va) in Pages(L, FindAndMap(L, s1, frame))
            && Pages(L, FindAndMap(L, s1, frame))[PageOf(va)] == Leaf(FrameOf(s.phys), true)
  {
    FaultLeavesClear(L, s, slots, va);
    RequestDelivers(L, HandleFault(L, s, va), SlotsStep(L, s, slots, Fault(va)), frame);
  }

  lemma FaultLeavesClear(L: Layout, s: State, slots: seq<Index>, va: Word)
    requires Good(L, s, slots) && FaultReady(L, s, va) && PageLeft(s) && PageOf(va) == s.alloc.Find().0.value
    ensures var s1 := HandleFault(L, s, va);
            && Good(L, s1, SlotsStep(L, s, slots, Fault(va))) && s1.alloc == s.alloc
            && MapReady(L, s1) && !Covered(L, s1)
            && PageOf(va) in Pages(L, s1) && Pages(L, s1)[PageOf(va)] == Leaf(FrameOf(s.phys), true)
  {
    var s1 := HandleFault(L, s, va);
    FaultProgress(L, s, slots, va);
    FaultOnlyAdds(L, s, slots, va);
    FindLowest(s.alloc);
    TranslatedReady(L, s1, PageOf(va));
  }

  /** A page that is translated needs no table. */
  lemma TranslatedReady(L: Layout, s: State, p: PageNo)
    requires p in Pages(L, s) && s.alloc.Find().0 == Some(p) && p < WINDOW
    ensures MapReady(L, s)
  {
  }

  /** The event is no fault on a clear page between 0xC0000000 and the window. */
  predicate Harmless(s: State, e: Event) {
    e.Fault? ==>
      var p := PageOf(e.va);
      FIRST_PAGE <= p < WINDOW ==> Taken(s.alloc.bits, p)
  }

  /** An event keeps the index covering exactly when it is harmless. */
  lemma CoveredStep(L: Layout, s: State, slots: seq<Index>, e: Event)
    requires Good(L, s, slots) && Covered(L, s) && Ready(L, s, e)
    ensures Covered(L, Step(L, s, e)) <==> Harmless(s, e)
  {
    match e
    case Fault(va) =>
      CoveredFault(L, s, slots, va);
    case Map(frame) =>
      var p := s.alloc.Find().0.value;
      FindLowest(s.alloc);
      MapUpdates(L, s, slots, p, frame);
      CoveredAfter(Pages(L, s), Pages(L, Step(L, s, e)), s.alloc, p, s.alloc.Find().1);
    case Write(va, v) =>
      DataWriteKeeps(L, s.tables.mem, WriteData(L, s, va, v).tables.mem, slots);
  }

  lemma CoveredFault(L: Layout, s: State, slots: seq<Index>, va: Word)
    requires Good(L, s, slots) && Covered(L, s) && FaultReady(L, s, va)
    ensures Covered(L, HandleFault(L, s, va)) <==> Harmless(s, Fault(va))
  {
    var p := PageOf(va);
    var s' := HandleFault(L, s, va);
    FaultProgress(L, s, slots, va);
    FaultOnlyAdds(L, s, slots, va);
    forall q | q in Pages(L, s') && FIRST_PAGE <= q < WINDOW && q != p
      ensures q in Pages(L, s)
    {
      assert q != PageAt(1023, DirOf(p));
    }
  }

  lemma CoveredAfter(before: map<PageNo, Leaf>, after: map<PageNo, Leaf>, a: Allocator, p: PageNo, a': Allocator)
    requires BelowWindow(after) == BelowWindow(before) + {p}
    requires forall q | q in before && FIRST_PAGE <= q < WINDOW :: Taken(a.bits, q)
    requires forall q: PageNo | Taken(a.bits, q) :: Taken(a'.bits, q)
    requires p < FIRST_PAGE || Taken(a'.bits, p)
    ensures forall q | q in after && FIRST_PAGE <= q < WINDOW :: Taken(a'.bits, q)
  {
    forall q | q in after && FIRST_PAGE <= q < WINDOW
      ensures Taken(a'.bits, q)
    {
      assert q in BelowWindow(after);
    }
  }

  // ----- runs of requests mixed with harmless faults -----

  /** Every event is harmless when its turn comes. */
  ghost predicate HarmlessRun(L: Layout, s: State, es: seq<Event>)
    requires L.Valid() && Run(L, s, es)
    decreases |es|
  {
    es != [] ==> Harmless(s, es[0]) && HarmlessRun(L, Step(L, s, es[0]), es[1..])
  }

  /** Faults below 0xC0000000 and in the window are harmless in every run. */
  lemma {:induction false} FaultsElsewhere(L: Layout, s: State, es: seq<Event>)
    requires L.Valid() && Run(L, s, es)
    requires forall e | e in es :: e.Fault? ==> e.va < 0xC000_0000 || 0xFFC0_0000 <= e.va
    ensures HarmlessRun(L, s, es)
    decreases |es|
  {
    if es != [] {
      assert es[0] in es;
      FaultsElsewhere(L, Step(L, s, es[0]), es[1..]);
    }
  }

  /** The frames a run asks for, in order. */
  function Requested(es: seq<Event>): seq<FrameNo> {
    if es == [] then [] else (if es[0].Map? then [es[0].frame] else []) + Requested(es[1..])
  }

  /** The pages the requests of a run are given, in order. */
  ghost function Granted(L: Layout, s: State, es: seq<Event>): seq<PageNo>
    requires L.Valid() && Run(L, s, es)
    decreases |es|
  {
    if es == [] then []
    else
      (if es[0].Map? then [s.alloc.Find().0.value] else []) + Granted(L, Step(L, s, es[0]), es[1..])
  }

  /** Page by page, the space leads to the requested frames. */
  ghost predicate Delivers(space: map<PageNo, Leaf>, pages: seq<PageNo>, frames: seq<FrameNo>) {
    && |pages| == |frames|
    && forall k | 0 <= k < |pages| ::
         FIRST_PAGE <= pages[k] < WINDOW && pages[k] in space && space[pages[k]] == Leaf(frames[k], true)
  }

  /** In every run of requests, data writes and harmless faults, each request still has its own
      page leading to its own frame at the end of the run. */
  lemma {:induction false} RunDelivers(L: Layout, s: State, slots: seq<Index>, es: seq<Event>)
    requires Good(L, s, slots) && Covered(L, s) && Run(L, s, es) && HarmlessRun(L, s, es)
    ensures Delivers(Pages(L, Final(L, s, es)), Granted(L, s, es), Requested(es))
    decreases |es|
  {
    if es != [] {
      var s1 := Step(L, s, es[0]);
      StepKeeps(L, s, slots, es[0]);
      CoveredStep(L, s, slots, es[0]);
      RunDelivers(L, s1, SlotsStep(L, s, slots, es[0]), es[1..]);
      if es[0].Map? {
        FirstDelivers(L, s, slots, es);
        DeliversMore(Pages(L, Final(L, s1, es[1..])), s.alloc.Find().0.value, es[0].frame,
                     Granted(L, s1, es[1..]), Requested(es[1..]));
      }
    }
  }

  lemma DeliversMore(space: map<PageNo, Leaf>, p: PageNo, frame: FrameNo, pages: seq<PageNo>, frames: seq<FrameNo>)
    requires Delivers(space, pages, frames)
    requires FIRST_PAGE <= p < WINDOW && p in space && space[p] == Leaf(frame, true)
    ensures Delivers(space, [p] + pages, [frame] + frames)
  {
  }

  lemma FirstDelivers(L: Layout, s: State, slots: seq<Index>, es: seq<Event>)
    requires Good(L, s, slots) && Covered(L, s) && Run(L, s, es)
    requires es != [] && es[0].Map?
    ensures var p := s.alloc.Find().0.value;
            && FIRST_PAGE <= p < WINDOW && p in Pages(L, Final(L, s, es))
            && Pages(L, Final(L, s, es))[p] == Leaf(es[0].frame, true)
  {
    CoveredDelivers(L, s, slots, es[0].frame);
    FindLowest(s.alloc);
    StepKeeps(L, s, slots, es[0]);
    RunKeeps(L, Step(L, s, es[0]), SlotsStep(L, s, slots, es[0]), es[1..]);
  }

  /** The granted pages are the allocator's first-fit sequence, faults or not, hence pairwise
      distinct and ascending. */
  lemma {:induction false} GrantedFirstFit(L: Layout, s: State, es: seq<Event>)
    requires L.Valid() && Run(L, s, es)
    ensures Granted(L, s, es) == s.alloc.FindMany(|Requested(es)|)
    decreases |es|
  {
    if es != [] {
      GrantedFirstFit(L, Step(L, s, es[0]), es[1..]);
    }
  }

  // ----- how many pool tables requests use -----

  ghost predicate KernelSlots(slots: seq<Index>) {
    && (forall k | k in slots :: 769 <= k <= 1022)
    && (forall i, j | 0 <= i < j < |slots| :: slots[i] != slots[j])
  }

  lemma {:induction false} KernelSlotsCount(slots: seq<Index>, lo: nat)
    requires forall k | k in slots :: lo <= k <= 1022
    requires forall i, j | 0 <= i < j < |slots| :: slots[i] != slots[j]
    requires lo <= 1023
    ensures |slots| <= 1023 - lo
    decreases 1023 - lo
  {
    if slots == [] {
    } else if lo in slots {
      var i :| 0 <= i < |slots| && slots[i] == lo;
      var rest := slots[..i] + slots[i + 1..];
      assert forall k | k in rest :: k in slots && k != lo;
      KernelSlotsCount(rest, lo + 1);
    } else {
      assert slots[0] in slots;
      KernelSlotsCount(slots, lo + 1);
    }
  }

  /** While only requests made tables, a request always finds a pool table, though `allocate_pt`
      checks nothing: requests use at most the 254 slots 769 to 1022. */
  lemma RequestFindsTable(L: Layout, s: State, slots: seq<Index>, frame: FrameNo)
    requires Good(L, s, slots) && KernelSlots(slots) && PageLeft(s)
    ensures MapReady(L, s)
    ensures KernelSlots(SlotsStep(L, s, slots, Map(frame)))
    ensures |SlotsStep(L, s, slots, Map(frame))| <= 254
  {
    KernelSlotsCount(slots, 769);
    FindLowest(s.alloc);
    var d := DirOf(s.alloc.Find().0.value);
    var slots' := SlotsStep(L, s, slots, Map(frame));
    if NeedsTable(L, s.tables.mem, d) {
      forall j | 0 <= j < |slots|
        ensures slots[j] != d
      {
      }
      assert forall k | k in slots' :: k in slots || k == d;
    }
    KernelSlotsCount(slots', 769);
  }

  function MapEvents(frames: seq<FrameNo>): seq<Event> {
    seq(|frames|, i requires 0 <= i < |frames| => Map(frames[i]))
  }

  /** The clear pages below the window. */
  ghost function ClearBelow(a: Allocator): set<PageNo> {
    set p | p in a.Clear() && p < WINDOW
  }

  /** Any number of requests for which clear pages are left goes through: no request runs out of
      pool tables, meets the window or aborts. */
  lemma {:induction false} RequestsFit(L: Layout, s: State, slots: seq<Index>, frames: seq<FrameNo>)
    requires Good(L, s, slots) && KernelSlots(slots)
    requires |frames| <= |ClearBelow(s.alloc)|
    ensures Run(L, s, MapEvents(frames))
    ensures Final(L, s, MapEvents(frames)).tables.issued <= 254
    decreases |frames|
  {
    KernelSlotsCount(slots, 769);
    if frames != [] {
      var es := MapEvents(frames);
      var e := Map(frames[0]);
      assert es[0] == e && es[1..] == MapEvents(frames[1..]);
      ClearShrinks(s.alloc);
      RequestFindsTable(L, s, slots, frames[0]);
      StepKeeps(L, s, slots, e);
      RequestsFit(L, Step(L, s, e), SlotsStep(L, s, slots, e), frames[1..]);
    }
  }

  lemma ClearShrinks(a: Allocator)
    requires a.Valid() && ClearBelow(a) != {}
    ensures a.Find().0.Some? && a.Find().0.value < WINDOW
    ensures |ClearBelow(a.Find().1)| == |ClearBelow(a)| - 1
  {
    FindLowest(a);
    var p :| p in ClearBelow(a);
    var q := a.Find().0.value;
    assert q <= p;
    assert ClearBelow(a.Find().1) == ClearBelow(a) - {q};
  }
}
