/** Frames that one page leads to, and when the answer 0 of `get_physaddr` means that a page is absent. */
module Absent {
  import opened Hardware
  import opened Tables
  import opened Kernel
  import opened Runs
  import opened Requests
  import M = Machine

  /** Boot maps frame 0 once. */
  lemma BootZeroOnce(L: Layout, m: Memory)
    requires L.Valid() && forall p: PageNo :: WalkPage(m, L.pd, p) == M.BootWalk(L, p)
    ensures ZeroOnce(Space(m, L.pd))
  {
    forall p | p in Space(m, L.pd) && Space(m, L.pd)[p].frame == 0
      ensures p == PageOf(KERNEL_BASE)
    {
      BootZeroPage(L, p);
    }
  }

  lemma BootZeroPage(L: Layout, p: PageNo)
    requires L.Valid() && M.BootWalk(L, p).Some? && M.BootWalk(L, p).value.frame == 0
    ensures p == PageOf(KERNEL_BASE)
  {
    assert p == DirOf(p) * 1024 + IdxOf(p);
  }

  /** A frame of low memory: below the kernel image, so neither a table nor handed to demand faults. */
  predicate Low(L: Layout, f: FrameNo) { L.Valid() && f < 256 }

  /** A request for frame f that gets a page of its own: a zero pointer in a root table makes one for frame 0. */
  ghost predicate MapsAgain(L: Layout, s: State, e: Event, f: FrameNo)
    requires Ready(L, s, e)
  {
    e.Map? && e.frame == f && s.alloc.Find().0.value !in Pages(L, s)
  }

  /** Pages in the window lead to tables. */
  lemma WindowLeadsToTable(L: Layout, m: Memory, slots: seq<Index>, p: PageNo)
    requires Inv(L, m, slots) && DirOf(p) == 1023 && p in Space(m, L.pd)
    ensures L.IsTable(Space(m, L.pd)[p].frame)
  {
    M.WindowWalk(L, m, slots, IdxOf(p));
    if IdxOf(p) != 1023 {
      SlotTarget(L, m, slots, IdxOf(p));
    }
  }

  lemma AddsNone(L: Layout, s: State, s': State, slots': seq<Index>, p: PageNo, f: FrameNo, q: PageNo)
    requires Inv(L, s'.tables.mem, slots') && !L.IsTable(f)
    requires OnlyAt(Pages(L, s), f, q) && OnlyAdds(Pages(L, s), Pages(L, s'), p)
    requires p !in Pages(L, s) && p in Pages(L, s') ==> Pages(L, s')[p].frame != f
    ensures OnlyAt(Pages(L, s'), f, q)
  {
    var after := Pages(L, s');
    forall p' | p' in after && after[p'].frame == f
      ensures p' == q
    {
      if p' !in Pages(L, s) && p' != p {
        WindowLeadsToTable(L, s'.tables.mem, slots', p');
      }
    }
  }

  /** A frame that one page leads to gets a second one exactly by a request for it that is granted a
      page of its own. */
  lemma RequestMapsAgain(L: Layout, s: State, slots: seq<Index>, frame: FrameNo, f: FrameNo, q: PageNo)
    requires Good(L, s, slots) && MapReady(L, s) && !L.IsTable(f)
    requires OnlyAt(Pages(L, s), f, q) && q in Pages(L, s)
    ensures OnlyAt(Pages(L, FindAndMap(L, s, frame)), f, q) <==>
              !(frame == f && s.alloc.Find().0.value !in Pages(L, s))
  {
    if frame == f && s.alloc.Find().0.value !in Pages(L, s) {
      MappedAgain(L, s, slots, frame, q);
    } else {
      NotMappedAgain(L, s, slots, frame, f, q);
    }
  }

  lemma MappedAgain(L: Layout, s: State, slots: seq<Index>, frame: FrameNo, q: PageNo)
    requires Good(L, s, slots) && MapReady(L, s)
    requires s.alloc.Find().0.value !in Pages(L, s) && q in Pages(L, s)
    ensures !OnlyAt(Pages(L, FindAndMap(L, s, frame)), frame, q)
  {
    RequestDelivers(L, s, slots, frame);
    assert Pages(L, FindAndMap(L, s, frame))[s.alloc.Find().0.value].frame == frame;
  }

  lemma NotMappedAgain(L: Layout, s: State, slots: seq<Index>, frame: FrameNo, f: FrameNo, q: PageNo)
    requires Good(L, s, slots) && MapReady(L, s) && !L.IsTable(f) && OnlyAt(Pages(L, s), f, q)
    requires frame != f || s.alloc.Find().0.value in Pages(L, s)
    ensures OnlyAt(Pages(L, FindAndMap(L, s, frame)), f, q)
  {
    RequestDelivers(L, s, slots, frame);
    MapKeeps(L, s, slots, frame);
    AddsNone(L, s, FindAndMap(L, s, frame), SlotsStep(L, s, slots, Map(frame)), s.alloc.Find().0.value, f, q);
  }

  lemma FaultMapsOther(L: Layout, s: State, slots: seq<Index>, va: Word, f: FrameNo, q: PageNo)
    requires Good(L, s, slots) && FaultReady(L, s, va) && Low(L, f) && OnlyAt(Pages(L, s), f, q)
    ensures OnlyAt(Pages(L, HandleFault(L, s, va)), f, q)
  {
    FaultProgress(L, s, slots, va);
    FaultOnlyAdds(L, s, slots, va);
    DemandIsHigh(s.phys);
    AddsNone(L, s, HandleFault(L, s, va), SlotsStep(L, s, slots, Fault(va)), PageOf(va), f, q);
  }

  lemma DemandIsHigh(phys: Word)
    requires DemandCount(phys) >= 0
    ensures FrameOf(phys) >= 256
  {
  }

  /** Every step keeps a low frame mapped once, but for the one kind that maps it again. */
  lemma OnceStep(L: Layout, s: State, slots: seq<Index>, e: Event, f: FrameNo, q: PageNo)
    requires Good(L, s, slots) && Ready(L, s, e) && Low(L, f) && OnlyAt(Pages(L, s), f, q) && q in Pages(L, s)
    ensures OnlyAt(Pages(L, Step(L, s, e)), f, q) <==> !MapsAgain(L, s, e, f)
  {
    match e
    case Fault(va) =>
      FaultMapsOther(L, s, slots, va, f, q);
    case Map(frame) =>
      RequestMapsAgain(L, s, slots, frame, f, q);
    case Write(va, v) =>
      DataWriteKeeps(L, s.tables.mem, WriteData(L, s, va, v).tables.mem, slots);
  }

  // ----- runs -----

  /** Some request of the run maps frame f again. */
  ghost predicate RunMapsAgain(L: Layout, s: State, es: seq<Event>, f: FrameNo)
    requires L.Valid() && Run(L, s, es)
    decreases |es|
  {
    es != [] && (MapsAgain(L, s, es[0], f) || RunMapsAgain(L, Step(L, s, es[0]), es[1..], f))
  }

  lemma TwiceStays(L: Layout, s: State, slots: seq<Index>, es: seq<Event>, f: FrameNo, q: PageNo)
    requires Good(L, s, slots) && Run(L, s, es) && !OnlyAt(Pages(L, s), f, q)
    ensures !OnlyAt(Pages(L, Final(L, s, es)), f, q)
  {
    RunKeeps(L, s, slots, es);
    var p :| p in Pages(L, s) && Pages(L, s)[p].frame == f && p != q;
    assert p in Pages(L, Final(L, s, es)) && Pages(L, Final(L, s, es))[p].frame == f;
  }

  /** In every run a low frame that was mapped once stays so if and only if no request maps it again. */
  lemma {:induction false} RunOnce(L: Layout, s: State, slots: seq<Index>, es: seq<Event>, f: FrameNo, q: PageNo)
    requires Good(L, s, slots) && Run(L, s, es) && Low(L, f) && OnlyAt(Pages(L, s), f, q) && q in Pages(L, s)
    ensures OnlyAt(Pages(L, Final(L, s, es)), f, q) <==> !RunMapsAgain(L, s, es, f)
    decreases |es|
  {
    if es != [] {
      var s1, slots1 := Step(L, s, es[0]), SlotsStep(L, s, slots, es[0]);
      StepKeeps(L, s, slots, es[0]);
      OnceStep(L, s, slots, es[0], f, q);
      if MapsAgain(L, s, es[0], f) {
        TwiceStays(L, s1, slots1, es[1..], f, q);
      } else {
        RunOnce(L, s1, slots1, es[1..], f, q);
      }
    }
  }

  lemma {:induction false} NotRequested(L: Layout, s: State, es: seq<Event>, f: FrameNo)
    requires L.Valid() && Run(L, s, es) && f !in Requested(es)
    ensures !RunMapsAgain(L, s, es, f)
    decreases |es|
  {
    if es != [] {
      NotRequested(L, Step(L, s, es[0]), es[1..], f);
    }
  }

  lemma {:induction false} CoveredRunMapsAgain(L: Layout, s: State, slots: seq<Index>, es: seq<Event>, f: FrameNo)
    requires Good(L, s, slots) && Covered(L, s) && Run(L, s, es) && HarmlessRun(L, s, es)
    ensures RunMapsAgain(L, s, es, f) <==> f in Requested(es)
    decreases |es|
  {
    if es != [] {
      StepKeeps(L, s, slots, es[0]);
      CoveredStep(L, s, slots, es[0]);
      if es[0].Map? {
        CoveredDelivers(L, s, slots, es[0].frame);
      }
      CoveredRunMapsAgain(L, Step(L, s, es[0]), SlotsStep(L, s, slots, es[0]), es[1..], f);
    }
  }

  /** In every run without a request for a low frame that was mapped once, whatever faults the run has, the frame
      stays mapped once. */
  lemma UnrequestedOnce(L: Layout, s: State, slots: seq<Index>, es: seq<Event>, f: FrameNo, q: PageNo)
    requires Good(L, s, slots) && Run(L, s, es) && Low(L, f) && OnlyAt(Pages(L, s), f, q) && q in Pages(L, s)
    requires f !in Requested(es)
    ensures OnlyAt(Pages(L, Final(L, s, es)), f, q)
  {
    NotRequested(L, s, es, f);
    RunOnce(L, s, slots, es, f, q);
  }

  /** In runs that keep the index covering, such a frame stays mapped once if and only if it is not requested. */
  lemma OnceUnlessRequested(L: Layout, s: State, slots: seq<Index>, es: seq<Event>, f: FrameNo, q: PageNo)
    requires Good(L, s, slots) && Covered(L, s) && Run(L, s, es) && HarmlessRun(L, s, es)
    requires Low(L, f) && OnlyAt(Pages(L, s), f, q) && q in Pages(L, s)
    ensures OnlyAt(Pages(L, Final(L, s, es)), f, q) <==> f !in Requested(es)
  {
    CoveredRunMapsAgain(L, s, slots, es, f);
    RunOnce(L, s, slots, es, f, q);
  }

  // ----- frame 0 -----

  lemma ImagePresent(L: Layout, m: Memory, slots: seq<Index>, f: Index)
    requires Inv(L, m, slots) && f < L.end
    ensures PageAt(768, f) in Space(m, L.pd)
  {
    assert Walk(m, L.pd, 768, f) == Some(Leaf(f, true));
  }

  lemma ZeroPresent(L: Layout, m: Memory, slots: seq<Index>)
    requires Inv(L, m, slots)
    ensures PageOf(KERNEL_BASE) in Space(m, L.pd)
  {
    ImagePresent(L, m, slots, 0);
    assert PageOf(KERNEL_BASE) == PageAt(768, 0);
  }

  /** In every run without a request for frame 0, faults and data writes wherever they fall, 0 is
      the translation of 0xC0000000 and of no other address: the answer 0 means "absent" for all
      addresses but this one. */
  lemma ZeroMeansAbsent(L: Layout, s: State, slots: seq<Index>, es: seq<Event>, va: Word)
    requires Good(L, s, slots) && Run(L, s, es) && ZeroOnce(Pages(L, s))
    requires 0 !in Requested(es)
    ensures Translate(Final(L, s, es).tables.mem, L.pd, va) == Some(0) <==> va == KERNEL_BASE
  {
    ZeroPresent(L, s.tables.mem, slots);
    UnrequestedOnce(L, s, slots, es, 0, PageOf(KERNEL_BASE));
    RunKeeps(L, s, slots, es);
    ZeroAddress(L, Final(L, s, es).tables.mem, SlotsFinal(L, s, slots, es), va);
  }

  /** In runs that keep the index covering, a request for frame 0 is exactly what takes the meaning
      "absent" away from the answer 0. */
  lemma AbsentUnlessZeroRequested(L: Layout, s: State, slots: seq<Index>, es: seq<Event>)
    requires Good(L, s, slots) && Covered(L, s) && Run(L, s, es) && HarmlessRun(L, s, es) && ZeroOnce(Pages(L, s))
    ensures ZeroOnce(Pages(L, Final(L, s, es))) <==> 0 !in Requested(es)
  {
    ZeroPresent(L, s.tables.mem, slots);
    OnceUnlessRequested(L, s, slots, es, 0, PageOf(KERNEL_BASE));
  }
}
