/** Enumeration safety over whole runs of the main loop, and exactly which interrupts it depends on. */
module EnumTheorems {
  import opened Words
  import opened EnumSpec

  predicate Detached(task: byte) {
    task == INITIALIZE || task == WAIT_FOR_DEVICE || task == ILLEGAL
  }

  predicate Attaching(task: byte) {
    ATTACHED <= task <= GET_DEVICE_DESCRIPTOR_SIZE
  }

  /** The states the state machine knows. */
  predicate Named(task: byte) {
    Detached(task) || Attaching(task) || task == ADDRESSING || task == CONFIGURING || task == RUNNING || task == ERROR
  }

  predicate NoAddressHeld(s: Stack)
    requires TableOk(s)
  {
    forall a :: 1 <= a <= USB_NUMDEVICES ==> !s.held[a]
  }

  /** The last thing that happened is that "addr" was acknowledged by the device. */
  predicate JustAddressed(s: Stack, addr: nat) {
    s.log != [] && s.log[|s.log| - 1] == Addressed(addr)
  }

  /** The last things that happened are that an address was acknowledged and that a probe took that address. */
  ghost predicate JustProbed(s: Stack)
    requires TableOk(s)
  {
    var n := |s.log|;
    && n >= 2 && s.log[n - 1].Probed? && s.log[n - 2] == Addressed(s.log[n - 1].addr)
    && 1 <= s.log[n - 1].addr < USB_NUMDEVICES && s.held[s.log[n - 1].addr]
  }

  /** The task state is a named one; detached states hold no address; the configuring state has just
      addressed the device it will probe; the running state was entered by a probe of the address the device
      had just acknowledged. */
  ghost predicate Inv(s: Stack) {
    && TableOk(s)
    && Named(s.task)
    && (Detached(s.task) ==> NoAddressHeld(s))
    && (s.task == CONFIGURING ==> JustAddressed(s, s.tmpAddr) && 1 <= s.tmpAddr < USB_NUMDEVICES && s.held[s.tmpAddr])
    && (s.task == RUNNING ==> JustProbed(s))
    && (s.wasRunning <==> s.task == RUNNING)
  }

  /** The task state when the bus event is looked at: after the bus probe, if there was one. */
  function AfterProbe(s: Stack, i: Inputs): Stack {
    if i.condet then BusProbe(s, i.sample) else s
  }

  /** A bus event advances the task state by one; these are the states it may find. */
  predicate BusEventOk(s: Stack, i: Inputs)
    requires TableOk(s)
  {
    var task := AfterProbe(s, i).task;
    || s.wasRunning
    || task == WAIT_FOR_DEVICE
    || ATTACHED <= task < GET_DEVICE_DESCRIPTOR_SIZE
    || (task == ADDRESSING && FreeAddress(s.held, 1) < USB_NUMDEVICES)
    || (task == CONFIGURING && (i.mouse || i.keyboard))
  }

  /** The interrupts a pass tolerates. */
  predicate Safe(s: Stack, i: Inputs)
    requires TableOk(s)
  {
    i.irq ==>
      && (i.busEvent ==> BusEventOk(s, i))
      && (i.condet && i.sample == SE1 && !i.busEvent ==> s.wasRunning || NoAddressHeld(s))
  }

  lemma BootInv(sample: Bus)
    ensures Inv(Boot(sample))
  {
  }

  /** What must hold once the interrupt handler is done: an INITIALIZE state may still have a table to clear,
      everything else is as the invariant says. */
  ghost predicate Handled(s: Stack) {
    && TableOk(s)
    && Named(s.task)
    && (s.task == WAIT_FOR_DEVICE || s.task == ILLEGAL ==> NoAddressHeld(s))
    && (s.task == CONFIGURING ==> JustAddressed(s, s.tmpAddr) && 1 <= s.tmpAddr < USB_NUMDEVICES && s.held[s.tmpAddr])
    && s.task != RUNNING && !s.wasRunning
  }

  /** The state machine and the main loop keep the invariant from there. */
  lemma RestKeeps(s: Stack, i: Inputs)
    requires Handled(s)
    ensures var t := UsbTask(s, i); Inv(if t.task == RUNNING then t.(wasRunning := true) else t)
  {
  }

  /** What the interrupt handler can make of RUNNING: nothing else in the stack changes. */
  lemma HandledFromRunning(s: Stack, i: Inputs)
    requires TableOk(s) && s.task == RUNNING
    ensures var t := MaxTask(s, i);
            && t == s.(task := t.task)
            && t.task in {RUNNING, RUNNING + 1, ATTACHED, SETTLE, ILLEGAL, ILLEGAL + 1, INITIALIZE, INITIALIZE + 1}
  {
  }

  /** The state machine on any of these leaves RUNNING alone or leaves it behind, with the addresses as they are
      or cleared. */
  lemma TaskFromRunning(t: Stack, i: Inputs)
    requires TableOk(t)
    requires t.task in {RUNNING, RUNNING + 1, ATTACHED, SETTLE, ILLEGAL, ILLEGAL + 1, INITIALIZE, INITIALIZE + 1}
    ensures var u := UsbTask(t, i);
            && (u.task == RUNNING <==> t.task == RUNNING) && (t.task == RUNNING ==> u == t)
            && u.task != ERROR && u.task != CONFIGURING && u.wasRunning == t.wasRunning
  {
  }

  /** A pass that starts in RUNNING keeps the invariant whatever interrupts it meets: leaving RUNNING
      initialises the chip and the tables again. */
  lemma FromRunning(s: Stack, i: Inputs)
    requires Inv(s) && s.wasRunning
    ensures Inv(MainStep(s, i)) && Safe(s, i)
  {
    hide UsbTask, MaxTask;
    HandledFromRunning(s, i);
    TaskFromRunning(MaxTask(s, i), i);
  }

  /** A pass from any other state without a bus event. */
  lemma FromElsewhere(s: Stack, i: Inputs)
    requires Inv(s) && !s.wasRunning && !(i.irq && i.busEvent)
    ensures Inv(MainStep(s, i)) <==> Safe(s, i)
  {
    if Safe(s, i) {
      RestKeeps(MaxTask(s, i), i);
    }
  }

  lemma EventAdvances(s: Stack, i: Inputs)
    requires TableOk(s) && i.irq && i.busEvent
    ensures var p := AfterProbe(s, i); TableOk(p) && MaxTask(s, i) == p.(task := (p.task + 1) % 256)
  {
  }

  /** The states a bus event may find advance to ones the rest of the pass can go on from. */
  lemma EventHandled(s: Stack, i: Inputs)
    requires Inv(s) && !s.wasRunning && i.irq && i.busEvent
    requires var p := AfterProbe(s, i); p.task == WAIT_FOR_DEVICE || ATTACHED <= p.task < GET_DEVICE_DESCRIPTOR_SIZE
    ensures Inv(MainStep(s, i))
  {
    EventAdvances(s, i);
    hide MaxTask, UsbTask;
    var p, t := AfterProbe(s, i), MaxTask(s, i);
    assert NoAddressHeld(p) || p.task != WAIT_FOR_DEVICE;
    RestKeeps(t, i);
  }

  /** From ADDRESSING the advanced state still runs the addressing branch. */
  lemma EventAddressing(s: Stack, i: Inputs)
    requires Inv(s) && !s.wasRunning && i.irq && i.busEvent && AfterProbe(s, i).task == ADDRESSING
    ensures Inv(MainStep(s, i)) <==> FreeAddress(s.held, 1) < USB_NUMDEVICES
  {
    EventAdvances(s, i);
    hide MaxTask;
  }

  /** From CONFIGURING it still runs the probes. */
  lemma EventConfiguring(s: Stack, i: Inputs)
    requires Inv(s) && !s.wasRunning && i.irq && i.busEvent && AfterProbe(s, i).task == CONFIGURING
    ensures Inv(MainStep(s, i)) <==> i.mouse || i.keyboard
  {
    EventAdvances(s, i);
    hide MaxTask;
  }

  lemma UnnamedStays(t: Stack, i: Inputs)
    requires TableOk(t) && t.task in {INITIALIZE + 1, ILLEGAL + 1, GET_DEVICE_DESCRIPTOR_SIZE + 1, 0}
    ensures UsbTask(t, i) == t && !Named(t.task)
  {
  }

  /** From anywhere else it has no name and stays so. */
  lemma EventLost(s: Stack, i: Inputs)
    requires Inv(s) && !s.wasRunning && i.irq && i.busEvent
    requires AfterProbe(s, i).task in {INITIALIZE, ILLEGAL, GET_DEVICE_DESCRIPTOR_SIZE, ERROR}
    ensures !Inv(MainStep(s, i))
  {
    hide MaxTask, UsbTask, Named, JustProbed, JustAddressed, NoAddressHeld;
    EventAdvances(s, i);
    AfterProbeRunning(s, i);
    UnnamedStays(MaxTask(s, i), i);
  }

  lemma AfterProbeRunning(s: Stack, i: Inputs)
    ensures AfterProbe(s, i).wasRunning == s.wasRunning
  {
  }

  lemma EventStates(s: Stack, i: Inputs)
    requires Inv(s) && !s.wasRunning && i.irq && i.busEvent
    ensures var task := AfterProbe(s, i).task;
            && TableOk(s)
            && (|| task == WAIT_FOR_DEVICE || ATTACHED <= task < GET_DEVICE_DESCRIPTOR_SIZE
                || task == ADDRESSING || task == CONFIGURING
                || task in {INITIALIZE, ILLEGAL, GET_DEVICE_DESCRIPTOR_SIZE, ERROR})
            && (Safe(s, i) <==> BusEventOk(s, i))
  {
  }

  /** A pass from any other state with a bus event. */
  lemma FromElsewhereEvent(s: Stack, i: Inputs)
    requires Inv(s) && !s.wasRunning && i.irq && i.busEvent
    ensures Inv(MainStep(s, i)) <==> Safe(s, i)
  {
    hide Inv, MainStep, Safe, AfterProbe;
    EventStates(s, i);
    var task := AfterProbe(s, i).task;
    if task == WAIT_FOR_DEVICE || ATTACHED <= task < GET_DEVICE_DESCRIPTOR_SIZE {
      EventHandled(s, i);
    } else if task == ADDRESSING {
      EventAddressing(s, i);
    } else if task == CONFIGURING {
      EventConfiguring(s, i);
    } else {
      EventLost(s, i);
    }
  }

  /** A pass of the main loop keeps the invariant if and only if the interrupts it meets are safe. */
  lemma StepKeepsInvIff(s: Stack, i: Inputs)
    requires Inv(s)
    ensures Inv(MainStep(s, i)) <==> Safe(s, i)
  {
    hide Inv, MainStep, Safe;
    if s.wasRunning {
      FromRunning(s, i);
    } else if i.irq && i.busEvent {
      FromElsewhereEvent(s, i);
    } else {
      FromElsewhere(s, i);
    }
  }

  /** The same with nothing but what is known when the interrupts come: the state, the bus sample and the event. */
  predicate SafeBefore(s: Stack, i: Inputs)
    requires TableOk(s)
  {
    var task := AfterProbe(s, i).task;
    i.irq ==>
      && (i.busEvent ==>
            || s.wasRunning
            || task == WAIT_FOR_DEVICE
            || ATTACHED <= task < GET_DEVICE_DESCRIPTOR_SIZE
            || (task == ADDRESSING && FreeAddress(s.held, 1) < USB_NUMDEVICES))
      && (i.condet && i.sample == SE1 && !i.busEvent ==> s.wasRunning || NoAddressHeld(s))
  }

  /** The same pass with other results of the probes. */
  function WithProbes(i: Inputs, mouse: bool, keyboard: bool): Inputs {
    i.(mouse := mouse, keyboard := keyboard)
  }

  /** A pass keeps the invariant whatever its probes find if and only if that condition holds before it. */
  lemma StepAlwaysKeepsInvIff(s: Stack, i: Inputs)
    requires Inv(s)
    ensures (forall mouse, keyboard :: Inv(MainStep(s, WithProbes(i, mouse, keyboard)))) <==> SafeBefore(s, i)
  {
    SafeWithoutProbes(s, i);
    hide Inv, MainStep, Safe, SafeBefore, WithProbes;
    forall mouse, keyboard
      ensures Inv(MainStep(s, WithProbes(i, mouse, keyboard))) <==> Safe(s, WithProbes(i, mouse, keyboard))
    {
      StepKeepsInvIff(s, WithProbes(i, mouse, keyboard));
    }
  }

  lemma SafeWithoutProbes(s: Stack, i: Inputs)
    requires TableOk(s)
    ensures SafeBefore(s, i) ==> forall mouse, keyboard :: Safe(s, WithProbes(i, mouse, keyboard))
    ensures !SafeBefore(s, i) ==> !Safe(s, WithProbes(i, false, false))
  {
  }

  /** In particular passes that see no SE1, and bus events in WAIT_RESET_COMPLETE alone, are safe. */
  lemma QuietIsSafe(s: Stack, i: Inputs)
    requires Inv(s)
    requires i.irq && i.condet ==> i.sample != SE1
    requires i.irq && i.busEvent ==> AfterProbe(s, i).task == WAIT_RESET_COMPLETE
    ensures Safe(s, i)
  {
  }

  // ---------------------------------------------------------------- whole runs

  function Run(s: Stack, passes: seq<Inputs>): (t: Stack)
    requires TableOk(s)
    ensures TableOk(t)
    decreases |passes|
  {
    if passes == [] then s else Run(MainStep(s, passes[0]), passes[1..])
  }

  ghost predicate SafeRun(s: Stack, passes: seq<Inputs>)
    requires TableOk(s)
    decreases |passes|
  {
    passes != [] ==> Safe(s, passes[0]) && SafeRun(MainStep(s, passes[0]), passes[1..])
  }

  /** Enumeration safety: after any number of safe passes, for every behaviour of the bus and the device, the
      invariant holds; so a device runs only if it acknowledged an address and was then probed at it. */
  lemma {:induction false} EnumerationIsSafe(s: Stack, passes: seq<Inputs>)
    requires TableOk(s) && Inv(s) && SafeRun(s, passes)
    ensures Inv(Run(s, passes))
    decreases |passes|
  {
    hide Inv, MainStep, Safe;
    if passes != [] {
      StepKeepsInvIff(s, passes[0]);
      EnumerationIsSafe(MainStep(s, passes[0]), passes[1..]);
    }
  }

  /** The invariant holds before and after every pass. */
  ghost predicate InvThroughout(s: Stack, passes: seq<Inputs>)
    requires TableOk(s)
    decreases |passes|
  {
    Inv(s) && (passes != [] ==> InvThroughout(MainStep(s, passes[0]), passes[1..]))
  }

  /** Over whole runs of the main loop the invariant holds throughout if and only if every pass is safe. */
  lemma {:induction false} RunIsSafeIff(s: Stack, passes: seq<Inputs>)
    requires TableOk(s) && Inv(s)
    ensures InvThroughout(s, passes) <==> SafeRun(s, passes)
    decreases |passes|
  {
    hide Inv, MainStep, Safe;
    if passes != [] {
      StepKeepsInvIff(s, passes[0]);
      if Safe(s, passes[0]) {
        RunIsSafeIff(MainStep(s, passes[0]), passes[1..]);
      }
    }
  }

  lemma EnumerationIsSafeFromBoot(sample: Bus, passes: seq<Inputs>)
    requires SafeRun(Boot(sample), passes)
    ensures Inv(Run(Boot(sample), passes))
  {
    hide Inv, Boot, SafeRun;
    BootInv(sample);
    EnumerationIsSafe(Boot(sample), passes);
  }

  /** What an SE1 sample can do outside RUNNING: a device that failed to configure keeps its address while the
      stack waits for the next one. */
  lemma IllegalStateLeaksAddress(s: Stack, i1: Inputs, i2: Inputs)
    requires Inv(s) && !s.wasRunning && !NoAddressHeld(s)
    requires i1.irq && i1.condet && i1.sample == SE1 && !i1.busEvent
    requires i2.irq && i2.condet && i2.sample == SE0 && !i2.busEvent
    ensures var t := MainStep(MainStep(s, i1), i2); t.task == WAIT_FOR_DEVICE && !NoAddressHeld(t)
  {
  }

  // ---------------------------------------------------------------- unsafe runs from power-on

  /** A pass without an interrupt, at time "now", with the answers to the first and the second request. */
  function Quiet(now: nat, getDescr: byte, setAddr: byte): Inputs {
    Inputs(false, false, J, false, now, false, getDescr, setAddr, false, false, J)
  }

  /** A pass that finds the connection changed, with this bus sample. */
  function Changed(sample: Bus): Inputs {
    Inputs(true, true, sample, false, 0, false, 0, 0, false, false, J)
  }

  /** The passes that bring a device from power-on to the state in which its descriptor is asked for. */
  function Attach(): (s: Stack)
    ensures TableOk(s)
    ensures var q := Quiet(0, 0, 0); s == Run(Boot(J), [q, Quiet(201, 0, 0), q, q, q])
    ensures s.task == GET_DEVICE_DESCRIPTOR_SIZE && NoAddressHeld(s) && !s.wasRunning && Inv(s)
  {
    var q, late := Quiet(0, 0, 0), Quiet(201, 0, 0);
    var s1 := MainStep(Boot(J), q);
    var s2 := MainStep(s1, late);
    var s3 := MainStep(s2, q);
    var s4 := MainStep(s3, q);
    var s5 := MainStep(s4, q);
    RunFive(Boot(J), q, late, q, q, q);
    s5
  }

  lemma RunOne(s: Stack, a: Inputs, rest: seq<Inputs>)
    requires TableOk(s)
    ensures Run(s, [a] + rest) == Run(MainStep(s, a), rest)
  {
    assert ([a] + rest)[1..] == rest;
  }

  lemma RunFour(s: Stack, a: Inputs, b: Inputs, c: Inputs, d: Inputs)
    requires TableOk(s)
    ensures Run(s, [a, b, c, d]) == MainStep(MainStep(MainStep(MainStep(s, a), b), c), d)
  {
    hide MainStep;
    var s1 := MainStep(s, a);
    var s2 := MainStep(s1, b);
    var s3 := MainStep(s2, c);
    assert [a, b, c, d] == [a] + ([b] + ([c] + ([d] + [])));
    RunOne(s, a, [b] + ([c] + ([d] + [])));
    RunOne(s1, b, [c] + ([d] + []));
    RunOne(s2, c, [d] + []);
    RunOne(s3, d, []);
  }

  lemma RunFive(s: Stack, a: Inputs, b: Inputs, c: Inputs, d: Inputs, e: Inputs)
    requires TableOk(s)
    ensures Run(s, [a, b, c, d, e]) == MainStep(MainStep(MainStep(MainStep(MainStep(s, a), b), c), d), e)
  {
    hide MainStep, Run;
    assert [a, b, c, d, e] == [a] + [b, c, d, e];
    RunOne(s, a, [b, c, d, e]);
    RunFour(MainStep(s, a), b, c, d, e);
  }

  /** From power-on to a leaked address: the device answers its descriptor but refuses the address it is given,
      then the bus is sampled as SE1, then as disconnected. The stack waits for a device with address 1 held. */
  lemma RunLeaksAddress(refusal: byte)
    requires refusal != 0
    ensures var s := Attach();
            var t := Run(s, [Quiet(0, 0, 0), Quiet(0, 0, refusal), Changed(SE1), Changed(SE0)]);
            t.task == WAIT_FOR_DEVICE && t.held[1] && !Inv(t)
  {
    var s, q, r := Attach(), Quiet(0, 0, 0), Quiet(0, 0, refusal);
    hide Attach, Run;
    RunFour(s, q, r, Changed(SE1), Changed(SE0));
    var s6 := MainStep(s, q);
    var s7 := MainStep(s6, r);
    assert s7.task == ERROR && s7.held[1] && !s7.wasRunning;
    var s8 := MainStep(s7, Changed(SE1));
    assert s8.task == ILLEGAL && s8.held[1] && !s8.wasRunning;
    var s9 := MainStep(s8, Changed(SE0));
    assert s9.task == WAIT_FOR_DEVICE && s9.held[1];
  }

  /** From power-on to a state that has no name: a bus event while the descriptor is about to be asked for. */
  lemma RunLosesItself()
    ensures var t := Run(Attach(), [Inputs(true, false, J, true, 0, false, 0, 0, false, false, J)]);
            !Named(t.task) && !Inv(t)
  {
    var s, i := Attach(), Inputs(true, false, J, true, 0, false, 0, 0, false, false, J);
    hide Attach;
    assert [i][1..] == [];
    assert MainStep(s, i).task == 0x16;
  }
}
