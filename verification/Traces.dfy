/** The running machine takes the steps of `Kernel`, for whole runs: whatever the processor caches in
    between, handling a sequence of events with the kernel's own code ends in the state that the
    transition system gives, so what `Runs` and `Requests` prove of runs holds of the machine. */
module Traces {
  import opened Hardware
  import opened Tables
  import opened Machine
  import K = Kernel
  import R = Runs

  /** One event, handled by the code of the kernel. */
  method Perform(m: Machine, e: K.Event)
    requires m.Valid() && K.Ready(m.L, m.State(), e)
    modifies m, m.virtualMmap
    ensures m.Valid()
    ensures m.State() == K.Step(m.L, old(m.State()), e)
    ensures m.slots == R.SlotsFinal(m.L, old(m.State()), old(m.slots), [e])
  {
    ghost var s := m.State();
    OneEvent(m.L, s, m.slots, e);
    match e
    case Fault(va) =>
      var resumed := m.PageFaultHandler(va, 0);
    case Map(frame) =>
      FrameAddress(frame);
      var page := m.FindAndMap(frame * 0x1000);
    case Write(va, v) =>
      m.StoreData(va, v, WalkPage(m.mem, m.L.pd, PageOf(va)).value.frame, va % 0x1000);
      assert m.State() == K.WriteData(m.L, s, va, v);
  }

  lemma OneEvent(L: Layout, s: K.State, slots: seq<Index>, e: K.Event)
    requires L.Valid() && K.Ready(L, s, e)
    ensures K.Run(L, s, [e]) && R.SlotsFinal(L, s, slots, [e]) == K.SlotsStep(L, s, slots, e)
  {
    assert [e][1..] == [];
  }

  lemma FrameAddress(frame: FrameNo)
    ensures frame * 0x1000 < 0x1_0000_0000 && FrameOf(frame * 0x1000) == frame
  {
  }

  /** A whole run on the machine refines the run of the transition system. */
  method Execute(m: Machine, es: seq<K.Event>)
    requires m.Valid() && K.Run(m.L, m.State(), es)
    modifies m, m.virtualMmap
    ensures m.Valid()
    ensures m.State() == K.Final(m.L, old(m.State()), es)
    ensures m.slots == R.SlotsFinal(m.L, old(m.State()), old(m.slots), es)
  {
    ghost var s, slots := m.State(), m.slots;
    assert es[0..] == es;
    for i := 0 to |es|
      invariant m.Valid() && K.Run(m.L, m.State(), es[i..])
      invariant K.Final(m.L, m.State(), es[i..]) == K.Final(m.L, s, es)
      invariant R.SlotsFinal(m.L, m.State(), m.slots, es[i..]) == R.SlotsFinal(m.L, s, slots, es)
    {
      NextEvent(m.L, m.State(), m.slots, es, i);
      Perform(m, es[i]);
    }
  }

  lemma NextEvent(L: Layout, s: K.State, slots: seq<Index>, es: seq<K.Event>, i: nat)
    requires L.Valid() && i < |es| && K.Run(L, s, es[i..])
    ensures K.Ready(L, s, es[i]) && K.Run(L, K.Step(L, s, es[i]), es[i + 1..])
    ensures K.Final(L, s, es[i..]) == K.Final(L, K.Step(L, s, es[i]), es[i + 1..])
    ensures K.Run(L, s, [es[i]])
    ensures R.SlotsFinal(L, s, slots, es[i..]) ==
            R.SlotsFinal(L, K.Step(L, s, es[i]), R.SlotsFinal(L, s, slots, [es[i]]), es[i + 1..])
  {
    OneEvent(L, s, slots, es[i]);
    assert es[i..][1..] == es[i + 1..] && es[i..][0] == es[i];
  }
}
