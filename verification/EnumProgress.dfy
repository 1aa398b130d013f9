/** Enumeration makes progress: on a quiet bus a connected device is brought to RUNNING if and only if every request
    made on the way succeeds, and otherwise the stack comes to rest in ERROR. */
module EnumProgress {
  import opened Words
  import opened EnumSpec
  import opened EnumTheorems

  /** What a pass without an interrupt asks for succeeds: the device descriptor, the address, or one of the probes. */
  predicate Granted(s: Stack, i: Inputs) {
    && (s.task == GET_DEVICE_DESCRIPTOR_SIZE ==> i.getDescr == 0)
    && (s.task == ADDRESSING ==> i.setAddr == 0)
    && (s.task == CONFIGURING ==> i.mouse || i.keyboard)
  }

  /** How far the enumeration has come, from the settling of the bus to RUNNING. */
  function Level(task: byte): nat {
    if task == SETTLE then 0
    else if task == RESET_DEVICE then 1
    else if task == WAIT_RESET_COMPLETE then 2
    else if task == WAIT_SOF then 3
    else if task == GET_DEVICE_DESCRIPTOR_SIZE then 4
    else if task == ADDRESSING then 5
    else if task == CONFIGURING then 6
    else 7
  }

  /** A stack on its way: in one of these states, with a free address while it still needs one. */
  predicate OnWay(s: Stack) {
    && TableOk(s)
    && (Level(s.task) == 7 ==> s.task == RUNNING)
    && (s.wasRunning <==> s.task == RUNNING)
    && (Level(s.task) <= 5 ==> !s.held[1])
  }

  predicate QuietRun(ps: seq<Inputs>) {
    forall i :: i in ps ==> !i.irq
  }

  /** Where a pass leads: it waits for the settle time and for the end of the bus reset, and nowhere else. */
  function NextLevel(s: Stack, i: Inputs): nat {
    var n := Level(s.task);
    if n == 0 && i.now <= s.delay then 0
    else if n == 2 && i.resetting then 2
    else if n == 7 then 7
    else n + 1
  }

  lemma PassAdvances(s: Stack, i: Inputs)
    requires OnWay(s) && !i.irq
    ensures var t := MainStep(s, i);
            if Granted(s, i) then OnWay(t) && Level(t.task) == NextLevel(s, i) && t.delay == s.delay
            else t.task == ERROR
  {
    assert FreeAddress(s.held, 1) == 1 || s.held[1];
  }

  // ---------------------------------------------------------------- refusals

  /** The three states in which the stack asks for something, on a quiet bus: refused, it is in ERROR after that
      very pass, with nothing else changed but the address that was offered; granted, it goes on. */
  lemma RefusalIsAnError(s: Stack, i: Inputs)
    requires TableOk(s) && !i.irq
    ensures s.task == 0x15 && i.getDescr != 0 ==> MainStep(s, i) == s.(task := 0xFF)
    ensures s.task == 0x20 && i.setAddr != 0 ==> MainStep(s, i).task == 0xFF
    ensures s.task == 0x20 && (forall a :: 1 <= a < 8 ==> s.held[a]) ==> MainStep(s, i) == s.(task := 0xFF)
    ensures s.task == 0x30 && !i.mouse && !i.keyboard ==> MainStep(s, i) == s.(task := 0xFF)
    ensures s.task == 0x15 && i.getDescr == 0 && !s.wasRunning ==> MainStep(s, i) == s.(task := 0x20)
    ensures s.task == 0x30 && (i.mouse || i.keyboard) ==>
              MainStep(s, i) == s.(task := 0x40, wasRunning := true, log := s.log + [Probed(s.tmpAddr)])
  {
  }

  /** The address offered: the lowest free one, which stays held, granted or refused. */
  lemma AddressOffered(s: Stack, i: Inputs, a: nat)
    requires TableOk(s) && !i.irq && s.task == 0x20 && !s.wasRunning
    requires 1 <= a < 8 && !s.held[a] && forall b :: 1 <= b < a ==> s.held[b]
    ensures MainStep(s, i) ==
              if i.setAddr == 0
              then s.(task := 0x30, held := s.held[a := true], tmpAddr := a, log := s.log + [Addressed(a)])
              else s.(task := 0xFF, held := s.held[a := true])
  {
    FreeAddressIs(s.held, 1, a);
  }

  lemma {:induction false} FreeAddressIs(held: seq<bool>, from: nat, a: nat)
    requires |held| == USB_NUMDEVICES + 1 && 1 <= from <= a < USB_NUMDEVICES
    requires !held[a] && forall b :: from <= b < a ==> held[b]
    ensures FreeAddress(held, from) == a
    decreases a - from
  {
    if from < a {
      FreeAddressIs(held, from + 1, a);
    }
  }

  /** ERROR is a state of rest: without an interrupt nothing changes any more, however many passes. */
  lemma {:induction false} ErrorStays(s: Stack, ps: seq<Inputs>)
    requires TableOk(s) && s.task == ERROR && QuietRun(ps)
    ensures Run(s, ps) == s
    decreases |ps|
  {
    if ps != [] {
      assert ps[0] in ps && MainStep(s, ps[0]) == s;
      ErrorStays(s, ps[1..]);
    }
  }

  // ---------------------------------------------------------------- runs on a quiet bus

  /** Every request made during the run is granted. */
  ghost predicate AllGranted(s: Stack, ps: seq<Inputs>)
    requires TableOk(s)
    decreases |ps|
  {
    ps != [] ==> Granted(s, ps[0]) && AllGranted(MainStep(s, ps[0]), ps[1..])
  }

  /** Where such a run must come to rest. */
  ghost predicate Rests(s: Stack, ps: seq<Inputs>)
    requires TableOk(s)
  {
    Run(s, ps).task == if AllGranted(s, ps) then RUNNING else ERROR
  }

  /** The first pass of a run: if it is not an error, the rest of the run decides. */
  lemma RestsFromNext(s: Stack, ps: seq<Inputs>)
    requires OnWay(s) && QuietRun(ps) && ps != []
    requires Granted(s, ps[0]) ==> Rests(MainStep(s, ps[0]), ps[1..])
    ensures Rests(s, ps)
  {
    hide MainStep;
    assert ps[0] in ps;
    PassAdvances(s, ps[0]);
    if !Granted(s, ps[0]) {
      ErrorStays(MainStep(s, ps[0]), ps[1..]);
    }
  }

  /** From WAIT_SOF on every pass is a step. */
  lemma {:induction false} FromSofOn(s: Stack, ps: seq<Inputs>)
    requires OnWay(s) && QuietRun(ps) && Level(s.task) >= 3 && |ps| + Level(s.task) >= 7
    ensures Rests(s, ps)
    decreases |ps|
  {
    if ps != [] {
      hide MainStep;
      assert ps[0] in ps;
      PassAdvances(s, ps[0]);
      if Granted(s, ps[0]) {
        FromSofOn(MainStep(s, ps[0]), ps[1..]);
      }
      RestsFromNext(s, ps);
    }
  }

  /** Once the settle time is over: pass "j" finds the reset over, after the pass that starts it. */
  lemma {:induction false} FromResetOn(s: Stack, ps: seq<Inputs>, j: nat)
    requires OnWay(s) && QuietRun(ps) && Level(s.task) >= 1
    requires j < |ps| && !ps[j].resetting && j + Level(s.task) >= 2 && |ps| >= j + 5
    ensures Rests(s, ps)
    decreases |ps|
  {
    hide MainStep, Rests;
    if Level(s.task) >= 3 {
      FromSofOn(s, ps);
    } else {
      assert ps[0] in ps;
      PassAdvances(s, ps[0]);
      if j == 0 {
        FromSofOn(MainStep(s, ps[0]), ps[1..]);
      } else {
        FromResetOn(MainStep(s, ps[0]), ps[1..], j - 1);
      }
      RestsFromNext(s, ps);
    }
  }

  /** While settling: pass "k" comes after the settle time. */
  lemma {:induction false} FromSettleOn(s: Stack, ps: seq<Inputs>, k: nat, j: nat)
    requires OnWay(s) && QuietRun(ps)
    requires k + 2 <= j < |ps| && ps[k].now > s.delay && !ps[j].resetting && |ps| >= j + 5
    ensures Rests(s, ps)
    decreases |ps|
  {
    hide MainStep, Rests;
    if Level(s.task) >= 1 {
      FromResetOn(s, ps, j);
    } else {
      assert ps[0] in ps;
      PassAdvances(s, ps[0]);
      if k == 0 {
        FromResetOn(MainStep(s, ps[0]), ps[1..], j - 1);
      } else {
        FromSettleOn(MainStep(s, ps[0]), ps[1..], k - 1, j - 1);
      }
      RestsFromNext(s, ps);
    }
  }

  /** Progress from power-on: a device is connected and the bus is quiet. If some pass "k" comes more than 200 ms
      after the first and some pass "j", two or more later, finds the bus reset over, then at the latest four passes
      after that the stack is at rest: in RUNNING if and only if every request made on the way was granted,
      otherwise in ERROR. */
  lemma EnumerationRests(sample: Bus, ps: seq<Inputs>, k: nat, j: nat)
    requires (sample == J || sample == K) && QuietRun(ps)
    requires 1 <= k && k + 2 <= j && j + 5 <= |ps|
    requires ps[k].now > ps[0].now + 200 && !ps[j].resetting
    ensures AllGranted(Boot(sample), ps) <==> Run(Boot(sample), ps).task == 0x40
    ensures !AllGranted(Boot(sample), ps) <==> Run(Boot(sample), ps).task == 0xFF
  {
    hide MainStep, Boot, OnWay, Run, AllGranted;
    assert ps[0] in ps && QuietRun(ps[1..]);
    FirstPass(sample, ps[0]);
    FromSettleOn(MainStep(Boot(sample), ps[0]), ps[1..], k - 1, j - 1);
    RunNext(Boot(sample), ps);
  }

  /** The first pass starts the settle time and asks for nothing. */
  lemma FirstPass(sample: Bus, i: Inputs)
    requires sample == J || sample == K
    requires !i.irq
    ensures var s := MainStep(Boot(sample), i); OnWay(s) && s.task == SETTLE && s.delay == i.now + SETTLE_MS
    ensures Granted(Boot(sample), i)
  {
  }

  lemma RunNext(s: Stack, ps: seq<Inputs>)
    requires TableOk(s) && ps != []
    ensures Run(s, ps) == Run(MainStep(s, ps[0]), ps[1..])
    ensures AllGranted(s, ps) <==> Granted(s, ps[0]) && AllGranted(MainStep(s, ps[0]), ps[1..])
  {
    hide MainStep;
  }

  /** The device answers every request it may be sent. */
  predicate AllAnswered(ps: seq<Inputs>) {
    forall i :: i in ps ==> i.getDescr == 0 && i.setAddr == 0 && (i.mouse || i.keyboard)
  }

  lemma {:induction false} AnswersAreGranted(s: Stack, ps: seq<Inputs>)
    requires TableOk(s) && AllAnswered(ps)
    ensures AllGranted(s, ps)
    decreases |ps|
  {
    hide MainStep;
    if ps != [] {
      assert ps[0] in ps;
      AnswersAreGranted(MainStep(s, ps[0]), ps[1..]);
    }
  }

  /** In particular a device that answers everything ends in RUNNING. */
  lemma RunningIsReached(sample: Bus, ps: seq<Inputs>, k: nat, j: nat)
    requires (sample == J || sample == K) && QuietRun(ps) && AllAnswered(ps)
    requires 1 <= k && k + 2 <= j && j + 5 <= |ps|
    requires ps[k].now > ps[0].now + 200 && !ps[j].resetting
    ensures Run(Boot(sample), ps).task == 0x40
  {
    AnswersAreGranted(Boot(sample), ps);
    EnumerationRests(sample, ps, k, j);
  }

  // ---------------------------------------------------------------- devices that are not taken

  /** A pass in which the request made on the level "n" is refused. */
  predicate Refuses(i: Inputs, n: nat) {
    (n == 4 && i.getDescr != 0) || (n == 5 && i.setAddr != 0) || (n == 6 && !i.mouse && !i.keyboard)
  }

  lemma {:induction false} NoFurther(s: Stack, ps: seq<Inputs>, n: nat)
    requires OnWay(s) && QuietRun(ps) && Level(s.task) <= n && forall i :: i in ps ==> Refuses(i, n)
    ensures Run(s, ps).task == ERROR || Level(Run(s, ps).task) <= n
    decreases |ps|
  {
    hide MainStep;
    if ps != [] {
      assert ps[0] in ps;
      PassAdvances(s, ps[0]);
      if Granted(s, ps[0]) {
        NoFurther(MainStep(s, ps[0]), ps[1..], n);
      } else {
        ErrorStays(MainStep(s, ps[0]), ps[1..]);
      }
    }
  }

  /** From power-on into ERROR: a device that never answers its descriptor, or never accepts an address, or that no
      probe ever takes, such as one that is neither a boot mouse nor a boot keyboard. */
  lemma RefusingDeviceIsAnError(sample: Bus, ps: seq<Inputs>, k: nat, j: nat)
    requires (sample == J || sample == K) && QuietRun(ps)
    requires || (forall i :: i in ps ==> i.getDescr != 0)
             || (forall i :: i in ps ==> i.setAddr != 0)
             || (forall i :: i in ps ==> !i.mouse && !i.keyboard)
    requires 1 <= k && k + 2 <= j && j + 5 <= |ps|
    requires ps[k].now > ps[0].now + 200 && !ps[j].resetting
    ensures Run(Boot(sample), ps).task == 0xFF
  {
    hide Run, Boot;
    EnumerationRests(sample, ps, k, j);
    if forall i :: i in ps ==> i.getDescr != 0 {
      NeverRunning(sample, ps, 4);
    } else if forall i :: i in ps ==> i.setAddr != 0 {
      NeverRunning(sample, ps, 5);
    } else {
      NeverRunning(sample, ps, 6);
    }
  }

  lemma NeverRunning(sample: Bus, ps: seq<Inputs>, n: nat)
    requires (sample == J || sample == K) && QuietRun(ps) && ps != []
    requires 4 <= n <= 6 && forall i :: i in ps ==> Refuses(i, n)
    ensures Run(Boot(sample), ps).task != RUNNING
  {
    hide MainStep, Boot, Run, Refuses;
    assert ps[0] in ps;
    FirstPass(sample, ps[0]);
    RunNext(Boot(sample), ps);
    NoFurther(MainStep(Boot(sample), ps[0]), ps[1..], n);
  }

  // ---------------------------------------------------------------- waiting

  /** The settle time is needed: while no pass comes after it the stack settles. */
  lemma {:induction false} SettlesUntilThen(s: Stack, ps: seq<Inputs>)
    requires OnWay(s) && s.task == SETTLE && QuietRun(ps) && forall i :: i in ps ==> i.now <= s.delay
    ensures Run(s, ps).task == SETTLE
    decreases |ps|
  {
    hide MainStep;
    if ps != [] {
      assert ps[0] in ps;
      PassAdvances(s, ps[0]);
      SettlesUntilThen(MainStep(s, ps[0]), ps[1..]);
    }
  }

  /** So is the end of the reset: while every pass finds the bus in reset the stack waits for it, at most. */
  lemma {:induction false} WaitsForReset(s: Stack, ps: seq<Inputs>)
    requires OnWay(s) && Level(s.task) <= 2 && QuietRun(ps) && forall i :: i in ps ==> i.resetting
    ensures OnWay(Run(s, ps)) && Level(Run(s, ps).task) <= 2
    decreases |ps|
  {
    hide MainStep;
    if ps != [] {
      assert ps[0] in ps;
      PassAdvances(s, ps[0]);
      WaitsForReset(MainStep(s, ps[0]), ps[1..]);
    }
  }
}
