/** What connecting and disconnecting do: the bus samples that drive the state machine from outside, and that a
    device plugged in later is enumerated as one present at power-on. */
module EnumEvents {
  import opened Words
  import opened EnumSpec
  import opened EnumTheorems
  import opened EnumProgress

  /** The pass meets a change of the connection alone, with this sample. */
  predicate Connection(i: Inputs, sample: Bus) {
    i.irq && i.condet && i.sample == sample && !i.busEvent
  }

  predicate Fresh(s: Stack) {
    TableOk(s) && NoAddressHeld(s) && !s.wasRunning
  }

  /** The state the chip probe leaves when nothing was connected before it. */
  function FirstState(sample: Bus): byte {
    if sample == SE0 then 0x03 else if sample == SE1 then 0x04 else 0x10
  }

  /** Power-on: no address is held, and the state goes by the first sample. */
  lemma BootStates(sample: Bus)
    ensures Fresh(Boot(sample)) && Boot(sample).task == FirstState(sample) && Boot(sample).log == []
  {
  }

  /** A disconnection forgets every address and leaves the stack waiting for a device; a running stack looks at
      the bus once more and goes by what it sees. */
  lemma DisconnectForgets(s: Stack, i: Inputs)
    requires Inv(s) && Connection(i, SE0)
    ensures Fresh(MainStep(s, i))
    ensures MainStep(s, i).task == if s.wasRunning then FirstState(i.sampleAtInit) else 0x03
  {
  }

  /** A connection starts the settle time, from every state but two: while the reset is awaited it is the end of
      the reset that counts, and a running stack initialises everything once more. */
  lemma ConnectStarts(s: Stack, i: Inputs)
    requires Inv(s) && (Connection(i, J) || Connection(i, K))
    ensures var t := MainStep(s, i);
            if s.wasRunning then
              Fresh(t) && t.task == match i.sampleAtInit case SE0 => 0x01 case SE1 => 0x04 case _ => 0x10
            else if s.task == 0x13 then t == s.(task := if i.resetting then 0x13 else 0x14)
            else t == s.(task := 0x11, delay := i.now + 200)
  {
  }

  /** An SE1 sample leads to the illegal state and touches nothing else. */
  lemma IllegalSample(s: Stack, i: Inputs)
    requires TableOk(s) && !s.wasRunning && Connection(i, SE1)
    ensures MainStep(s, i) == s.(task := 0x04)
  {
  }

  /** A bus event while the reset is awaited ends the wait within the pass. */
  lemma EventEndsReset(s: Stack, i: Inputs)
    requires TableOk(s) && !s.wasRunning && s.task == 0x13 && i.irq && !i.condet && i.busEvent
    ensures MainStep(s, i) == s.(task := 0x15)
  {
  }

  lemma {:induction false} WaitsForDevice(s: Stack, ps: seq<Inputs>)
    requires TableOk(s) && s.task == 0x03 && !s.wasRunning && QuietRun(ps)
    ensures Run(s, ps) == s
    decreases |ps|
  {
    if ps != [] {
      assert ps[0] in ps && MainStep(s, ps[0]) == s;
      WaitsForDevice(s, ps[1..]);
    }
  }

  lemma {:induction false} RunJoin(s: Stack, ps: seq<Inputs>, qs: seq<Inputs>)
    requires TableOk(s)
    ensures Run(s, ps + qs) == Run(Run(s, ps), qs)
    decreases |ps|
  {
    hide MainStep;
    if ps == [] {
      assert ps + qs == qs;
    } else {
      assert (ps + qs)[1..] == ps[1..] + qs;
      RunJoin(MainStep(s, ps[0]), ps[1..], qs);
    }
  }

  /** From waiting for a device: a connection is met, and the bus is quiet afterwards. If some pass "k" comes more
      than 200 ms later and some pass "j", two or more after that, finds the bus reset over, the stack comes to
      rest, in RUNNING if and only if every request made on the way was granted. */
  lemma PluggedInRests(s: Stack, plug: Inputs, ps: seq<Inputs>, k: nat, j: nat)
    requires Fresh(s) && s.task == 0x03 && (Connection(plug, J) || Connection(plug, K)) && QuietRun(ps)
    requires k + 2 <= j && j + 5 <= |ps| && ps[k].now > plug.now + 200 && !ps[j].resetting
    ensures var t := MainStep(s, plug);
            Run(s, [plug] + ps).task == if AllGranted(t, ps) then 0x40 else 0xFF
  {
    RunOne(s, plug, ps);
    hide Run, AllGranted;
    FromSettleOn(MainStep(s, plug), ps, k, j);
  }

  /** Hot plugging: a running device, or one whose enumeration ended in ERROR, is disconnected, nothing happens for
      any number of passes, and then a device is connected that answers everything. It ends in RUNNING too. */
  lemma ReplugRuns(s: Stack, unplug: Inputs, idle: seq<Inputs>, plug: Inputs, ps: seq<Inputs>, k: nat, j: nat)
    requires Inv(s) && Connection(unplug, SE0) && unplug.sampleAtInit == SE0
    requires QuietRun(idle) && (Connection(plug, J) || Connection(plug, K)) && QuietRun(ps)
    requires AllAnswered(ps) && k + 2 <= j && j + 5 <= |ps| && ps[k].now > plug.now + 200 && !ps[j].resetting
    ensures TableOk(s) && Run(s, [unplug] + (idle + ([plug] + ps))).task == 0x40
  {
    hide MainStep, Run, Connection, QuietRun, AllAnswered, NoAddressHeld;
    DisconnectForgets(s, unplug);
    RunOne(s, unplug, idle + ([plug] + ps));
    PlugRuns(MainStep(s, unplug), idle, plug, ps, k, j);
  }

  lemma PlugRuns(s: Stack, idle: seq<Inputs>, plug: Inputs, ps: seq<Inputs>, k: nat, j: nat)
    requires Fresh(s) && s.task == 0x03
    requires QuietRun(idle) && (Connection(plug, J) || Connection(plug, K)) && QuietRun(ps)
    requires AllAnswered(ps) && k + 2 <= j && j + 5 <= |ps| && ps[k].now > plug.now + 200 && !ps[j].resetting
    ensures Run(s, idle + ([plug] + ps)).task == 0x40
  {
    hide MainStep, Run, Connection, QuietRun, AllAnswered, NoAddressHeld, AllGranted;
    RunJoin(s, idle, [plug] + ps);
    WaitsForDevice(s, idle);
    AnswersAreGranted(MainStep(s, plug), ps);
    PluggedInRests(s, plug, ps, k, j);
  }
}
