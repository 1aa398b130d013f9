/** The descriptor pool over whole runs: the high-water mark is sound, temporary descriptors leave no trace,
    and exclusive access holds exactly when the scan of alt_fd_lock does not miss the last slot. */
module FdTheorems {
  import opened Words
  import opened FdSpec

  /** Which devices are filesystems. */
  type FileSystems = set<nat>

  datatype Event =
    | Open(target: Target, flags: u32, openStatus: int)
    | Close(closed: int, closeStatus: int)
    | Ioctl(fd: int, req: Request, driver: Option<int>)
    | Redirect(out: Channel, inp: Channel, err: Channel)

  // ---------------------------------------------------------------- the pool invariant

  predicate Allocated(p: Pool, i: int) {
    0 <= i < |p.slots| && p.slots[i].dev != 0
  }

  /** The high-water mark bounds the allocated descriptors, the standard ones stay allocated, free slots are
      clean, and only descriptors of devices carry the device and the exclusive flag. */
  ghost predicate Inv(p: Pool, fs: FileSystems) {
    && 3 <= |p.slots|
    && -1 <= p.maxFd < |p.slots|
    && (p.maxFd == -1 || p.maxFd >= 3)
    && (forall i :: 0 <= i < 3 ==> p.slots[i].dev != 0)
    && (forall i :: 3 <= i < |p.slots| && p.slots[i].dev != 0 ==> i <= p.maxFd)
    && (forall i :: 0 <= i < |p.slots| && p.slots[i].dev == 0 ==> p.slots[i].flags == NO_FLAGS)
    && (forall i :: 0 <= i < |p.slots| && p.slots[i].flags.isDev ==> p.slots[i].dev !in fs && p.maxFd >= 3)
    && (forall i :: 0 <= i < |p.slots| && p.slots[i].flags.excl ==> p.slots[i].flags.isDev)
  }

  /** A descriptor that holds its device exclusively is the only one on it. */
  ghost predicate Exclusive(p: Pool) {
    forall i, j :: 0 <= i < |p.slots| && 0 <= j < |p.slots| && i != j && p.slots[i].flags.excl && p.slots[i].dev != 0
                   ==> p.slots[j].dev != p.slots[i].dev
  }

  predicate TargetOk(t: Target, fs: FileSystems) {
    match t
    case NoDevice => true
    case Device(dev) => dev != 0 && dev !in fs
    case FileSystem(dev) => dev != 0 && dev in fs
  }

  /** What the source asks of its callers: lookups find registered devices, and descriptors passed in are open. */
  ghost predicate Legal(p: Pool, fs: FileSystems, e: Event) {
    match e
    case Open(target, _, _) => TargetOk(target, fs)
    case Close(fd, _) => fd >= 0 ==> Allocated(p, fd)
    case Ioctl(fd, _, _) => fd >= 0 ==> Allocated(p, fd)
    case Redirect(out, inp, err) => TargetOk(out.target, fs) && TargetOk(inp.target, fs) && TargetOk(err.target, fs)
  }

  function Step(p: Pool, fs: FileSystems, e: Event): Pool
    requires Inv(p, fs) && Legal(p, fs, e)
  {
    match e
    case Open(target, flags, status) => OpenSpec(p, target, flags, status).0
    case Close(fd, status) => CloseSpec(p, fd, status).0
    case Ioctl(fd, req, driver) => IoctlSpec(p, fd, req, driver).0
    case Redirect(out, inp, err) => RedirectSpec(p, out, inp, err)
  }

  lemma InitialInv(n: nat, nullDev: nat, fs: FileSystems)
    requires n >= 3 && nullDev != 0
    ensures Inv(Initial(n, nullDev), fs) && Exclusive(Initial(n, nullDev))
  {
  }

  // ---------------------------------------------------------------- open

  /** The pool while open() holds its new descriptor: claimed for the target, not yet confirmed. */
  function Claim(p: Pool, t: Target, flags: u32): Pool
    requires t != NoDevice && FirstFree(p.slots) < |p.slots|
  {
    var (q, k) := GetFdSpec(p, t.dev);
    SetFlags(q, k, Flags(ModeBits(flags), false, t.Device?))
  }

  lemma ClaimInv(p: Pool, fs: FileSystems, t: Target, flags: u32)
    requires Inv(p, fs) && t != NoDevice && TargetOk(t, fs) && FirstFree(p.slots) < |p.slots|
    ensures Inv(Claim(p, t, flags), fs) && FirstFree(p.slots) >= 3
  {
  }

  /** Giving the claimed descriptor back restores every slot's device and flags. */
  lemma UnclaimRestores(p: Pool, fs: FileSystems, t: Target, flags: u32)
    requires Inv(p, fs) && t != NoDevice && TargetOk(t, fs) && FirstFree(p.slots) < |p.slots|
    ensures var q := ReleaseSpec(Claim(p, t, flags), FirstFree(p.slots));
            q.slots == p.slots && Inv(q, fs)
  {
    var k := FirstFree(p.slots);
    var q := ReleaseSpec(Claim(p, t, flags), k);
    assert q.slots[k] == p.slots[k];
  }

  /** A failing open leaves every descriptor as it was. */
  lemma FailedOpenConserves(p: Pool, fs: FileSystems, t: Target, flags: u32, status: int)
    requires Inv(p, fs) && TargetOk(t, fs)
    ensures var (q, rc) := OpenSpec(p, t, flags, status);
            Inv(q, fs) && (rc < 0 ==> q.slots == p.slots && rc == -1)
  {
    if t != NoDevice && FirstFree(p.slots) < |p.slots| {
      ClaimInv(p, fs, t, flags);
      UnclaimRestores(p, fs, t, flags);
    }
  }

  /** An open that succeeds followed by a close leaves every descriptor as it was. */
  lemma OpenCloseConserves(p: Pool, fs: FileSystems, t: Target, flags: u32, status: int, closeStatus: int)
    requires Inv(p, fs) && TargetOk(t, fs)
    ensures var (q, fd) := OpenSpec(p, t, flags, status);
            fd >= 0 ==> CloseSpec(q, fd, closeStatus).0.slots == p.slots
  {
    if t != NoDevice && FirstFree(p.slots) < |p.slots| {
      ClaimInv(p, fs, t, flags);
      UnclaimRestores(p, fs, t, flags);
    }
  }

  /** The shortened scan misses no lock: as long as a descriptor holds a device exclusively, every open of
      that device fails and changes no descriptor. */
  lemma OpenOfLockedDeviceFails(p: Pool, fs: FileSystems, holder: nat, t: Target, flags: u32, status: int)
    requires Inv(p, fs) && TargetOk(t, fs)
    requires holder < |p.slots| && p.slots[holder].flags.excl && t.Device? && t.dev == p.slots[holder].dev
    ensures var (q, rc) := OpenSpec(p, t, flags, status); rc == -1 && q.slots == p.slots
  {
    FailedOpenConserves(p, fs, t, flags, status);
    if FirstFree(p.slots) < |p.slots| {
      var claimed := Claim(p, t, flags);
      ClaimInv(p, fs, t, flags);
      assert holder != FirstFree(p.slots);
      assert claimed.slots[holder] == p.slots[holder] && holder <= claimed.maxFd;
      assert LockedByOther(claimed, FirstFree(p.slots));
    }
  }

  /** Conversely, an open fails with EACCES only because of a lock. */
  lemma OpenRefusedOnlyWhenLocked(p: Pool, fs: FileSystems, t: Target, flags: u32, status: int)
    requires Inv(p, fs) && TargetOk(t, fs) && status >= 0
    ensures var (q, rc) := OpenSpec(p, t, flags, status);
            rc < 0 <==>
              || t == NoDevice
              || FirstFree(p.slots) == |p.slots|
              || (t.Device? && exists i :: 0 <= i < |p.slots| && p.slots[i].dev == t.dev && p.slots[i].flags.excl)
  {
    if t != NoDevice && FirstFree(p.slots) < |p.slots| {
      var claimed, k := Claim(p, t, flags), FirstFree(p.slots);
      ClaimInv(p, fs, t, flags);
      assert forall i :: 0 <= i < |p.slots| && i != k ==> claimed.slots[i] == p.slots[i];
      if i :| 0 <= i < |p.slots| && p.slots[i].dev == t.dev && p.slots[i].flags.excl {
        assert i != k && i <= claimed.maxFd && claimed.slots[i] == p.slots[i];
      }
    }
  }

  lemma OpenKeeps(p: Pool, fs: FileSystems, t: Target, flags: u32, status: int)
    requires Inv(p, fs) && Exclusive(p) && TargetOk(t, fs)
    ensures var (q, rc) := OpenSpec(p, t, flags, status); Inv(q, fs) && Exclusive(q)
  {
    FailedOpenConserves(p, fs, t, flags, status);
    var (q, rc) := OpenSpec(p, t, flags, status);
    if rc >= 0 {
      var k := FirstFree(p.slots);
      ClaimInv(p, fs, t, flags);
      assert q == Claim(p, t, flags);
      assert forall i :: 0 <= i < |p.slots| && i != k ==> q.slots[i] == p.slots[i];
      assert t.Device? ==> !LockedByOther(q, k);
      forall i | 0 <= i < |q.slots| && i != k && q.slots[i].dev == t.dev
        ensures !q.slots[i].flags.excl
      {
        assert i <= q.maxFd;
      }
    }
  }

  // ---------------------------------------------------------------- redirection

  /** alt_open_fd changes no descriptor but "std", and that one either not at all or to the opened device. */
  lemma OpenFdConserves(p: Pool, fs: FileSystems, std: nat, t: Target, flags: u32, status: int)
    requires Inv(p, fs) && std < 3 && TargetOk(t, fs)
    ensures var q := OpenFdSpec(p, std, t, flags, status);
            && Inv(q, fs)
            && (forall i :: 0 <= i < |p.slots| && i != std ==> q.slots[i] == p.slots[i])
            && if OpenSpec(p, t, flags, status).1 < 0 then q.slots[std] == p.slots[std]
               else q.slots[std].dev == t.dev && q.slots[std].flags == Flags(ModeBits(flags), false, t.Device?)
  {
    FailedOpenConserves(p, fs, t, flags, status);
    var (q, k) := OpenSpec(p, t, flags, status);
    if k >= 0 {
      assert q == Claim(p, t, flags) && k == FirstFree(p.slots);
      MoveConserves(p, fs, std, t, flags);
    }
  }

  /** Copying the claimed descriptor over "std" and giving it back. */
  lemma MoveConserves(p: Pool, fs: FileSystems, std: nat, t: Target, flags: u32)
    requires Inv(p, fs) && std < 3 && t != NoDevice && TargetOk(t, fs) && FirstFree(p.slots) < |p.slots|
    ensures var (q, k) := (Claim(p, t, flags), FirstFree(p.slots));
            var r := ReleaseSpec(q.(slots := q.slots[std := q.slots[k]]), k);
            && r.slots == p.slots[std := q.slots[k]]
            && q.slots[k].dev == t.dev && q.slots[k].flags == Flags(ModeBits(flags), false, t.Device?)
            && Inv(r, fs)
  {
    ClaimInv(p, fs, t, flags);
    UnclaimRestores(p, fs, t, flags);
    var q, k := Claim(p, t, flags), FirstFree(p.slots);
    var r := ReleaseSpec(q.(slots := q.slots[std := q.slots[k]]), k);
    assert r.slots[std] == q.slots[k] && r.maxFd == q.maxFd;
  }

  lemma OpenFdKeepsExclusive(p: Pool, fs: FileSystems, std: nat, t: Target, flags: u32, status: int)
    requires Inv(p, fs) && Exclusive(p) && std < 3 && TargetOk(t, fs)
    ensures Exclusive(OpenFdSpec(p, std, t, flags, status))
  {
    OpenKeeps(p, fs, t, flags, status);
    var (q, k) := OpenSpec(p, t, flags, status);
    if k >= 0 {
      ClaimInv(p, fs, t, flags);
      hide Exclusive, Inv;
      CopyKeepsExclusive(q, std, k);
    }
  }

  /** Moving a descriptor that holds no lock from slot "k" to slot "std". */
  lemma CopyKeepsExclusive(q: Pool, std: nat, k: nat)
    requires Exclusive(q) && std < 3 <= k < |q.slots| && q.slots[k].dev != 0 && !q.slots[k].flags.excl
    ensures Exclusive(ReleaseSpec(q.(slots := q.slots[std := q.slots[k]]), k))
  {
    var r := ReleaseSpec(q.(slots := q.slots[std := q.slots[k]]), k);
    forall i, j | 0 <= i < |r.slots| && 0 <= j < |r.slots| && i != j && r.slots[i].flags.excl && r.slots[i].dev != 0
      ensures r.slots[j].dev != r.slots[i].dev
    {
      assert i != std && i != k && r.slots[i] == q.slots[i];
      assert j != std && j != k ==> r.slots[j] == q.slots[j];
    }
  }

  /** Redirecting the standard channels leaves every other descriptor as it was; each standard descriptor is
      either unchanged or refers to the device its name was found under, opened for its direction. */
  lemma RedirectConserves(p: Pool, fs: FileSystems, out: Channel, inp: Channel, err: Channel)
    requires Inv(p, fs) && Legal(p, fs, Redirect(out, inp, err))
    ensures var q := RedirectSpec(p, out, inp, err);
            && Inv(q, fs)
            && (forall i :: 3 <= i < |p.slots| ==> q.slots[i] == p.slots[i])
            && Redirected(p.slots[0], q.slots[0], inp.target, O_RDONLY)
            && Redirected(p.slots[1], q.slots[1], out.target, O_WRONLY)
            && Redirected(p.slots[2], q.slots[2], err.target, O_WRONLY)
    ensures Exclusive(p) ==> Exclusive(RedirectSpec(p, out, inp, err))
  {
    var q := OpenFdSpec(p, 1, out.target, O_WRONLY, out.status);
    OpenFdConserves(p, fs, 1, out.target, O_WRONLY, out.status);
    var r := OpenFdSpec(q, 0, inp.target, O_RDONLY, inp.status);
    OpenFdConserves(q, fs, 0, inp.target, O_RDONLY, inp.status);
    OpenFdConserves(r, fs, 2, err.target, O_WRONLY, err.status);
    NoTarget(p, out);
    NoTarget(q, inp);
    NoTarget(r, err);
    if Exclusive(p) {
      OpenFdKeepsExclusive(p, fs, 1, out.target, O_WRONLY, out.status);
      OpenFdKeepsExclusive(q, fs, 0, inp.target, O_RDONLY, inp.status);
      OpenFdKeepsExclusive(r, fs, 2, err.target, O_WRONLY, err.status);
    }
  }

  lemma NoTarget(p: Pool, c: Channel)
    requires p.maxFd < |p.slots|
    ensures c.target.NoDevice? ==> forall flags :: OpenSpec(p, c.target, flags, c.status).1 < 0
  {
  }

  predicate Redirected(before: Fd, after: Fd, t: Target, flags: u32) {
    after == before
    || (t != NoDevice && after.dev == t.dev && after.flags == Flags(ModeBits(flags), false, t.Device?))
  }

  // ---------------------------------------------------------------- exclusive access

  /** The lock request is refused, or the slot its scan leaves out holds no other descriptor of the device. */
  predicate LockSafe(p: Pool, k: nat)
    requires k < |p.slots| && p.maxFd < |p.slots|
  {
    || SharedBelowMax(p, k)
    || p.maxFd < 0 || p.maxFd == k || p.slots[p.maxFd].dev != p.slots[k].dev
  }

  /** A lock request leaves exclusive access intact if and only if it is refused or the last slot is not
      another descriptor of the same device. */
  lemma LockIsExclusiveIff(p: Pool, fs: FileSystems, k: nat)
    requires Inv(p, fs) && Exclusive(p) && k < |p.slots| && p.slots[k].dev != 0 && p.slots[k].flags.isDev
    ensures Exclusive(LockSpec(p, k).0) <==> LockSafe(p, k)
    ensures Inv(LockSpec(p, k).0, fs)
  {
    var (q, rc) := LockSpec(p, k);
    if rc == 0 {
      assert forall i :: 0 <= i < |p.slots| ==> q.slots[i].dev == p.slots[i].dev;
      assert forall i :: 0 <= i < |p.slots| && i != k ==> q.slots[i] == p.slots[i];
      assert q.slots[k].flags.excl && k <= p.maxFd;
      if !LockSafe(p, k) {
        assert q.slots[p.maxFd].dev == q.slots[k].dev;
        assert !Exclusive(q);
      } else {
        assert !SharedBelowMax(p, k);
        forall j | 0 <= j < |q.slots| && j != k
          ensures q.slots[j].dev != q.slots[k].dev
        {
          assert q.slots[j].dev != 0 ==> j <= p.maxFd;
        }
      }
    }
  }

  /** The last slot can be missed in a run from reset: with two descriptors open on one device, the first of
      them is granted exclusive access while the second stays open. */
  lemma LockCanMissTheLastSlot(n: nat, nullDev: nat, dev: nat, driver: Option<int>)
    requires n >= 5 && nullDev != 0 && dev != 0 && dev != nullDev
    ensures var p := OpenSpec(OpenSpec(Initial(n, nullDev), Device(dev), 0, 0).0, Device(dev), 0, 0).0;
            && Allocated(p, 3) && Allocated(p, 4) && p.slots[3].dev == p.slots[4].dev == dev
            && IoctlSpec(p, 3, TIOCEXCL, driver).1 == 0
            && !Exclusive(IoctlSpec(p, 3, TIOCEXCL, driver).0)
  {
    var p0 := Initial(n, nullDev);
    FreeIs(p0.slots, 3);
    var p1 := Claim(p0, Device(dev), 0);
    assert OpenSpec(p0, Device(dev), 0, 0) == (p1, 3);
    FreeIs(p1.slots, 4);
    var p2 := Claim(p1, Device(dev), 0);
    assert OpenSpec(p1, Device(dev), 0, 0) == (p2, 4);
    InitialInv(n, nullDev, {});
    OpenKeeps(p0, {}, Device(dev), 0, 0);
    OpenKeeps(p1, {}, Device(dev), 0, 0);
    LockIsExclusiveIff(p2, {}, 3);
  }

  lemma FreeIs(slots: seq<Fd>, i: nat)
    requires i < |slots| && slots[i].dev == 0 && forall j :: 0 <= j < i ==> slots[j].dev != 0
    ensures FirstFree(slots) == i
  {
  }

  /** Closing gives a lock up if and only if the descriptor is not a standard one: those are never released. */
  lemma CloseUnlocksIff(p: Pool, fs: FileSystems, fd: nat, status: int)
    requires Inv(p, fs) && Exclusive(p) && Allocated(p, fd) && p.slots[fd].flags.excl
    ensures var q := CloseSpec(p, fd, status).0;
            (forall i :: 0 <= i < |q.slots| && q.slots[i].dev == p.slots[fd].dev ==> !q.slots[i].flags.excl) <==> fd > 2
  {
    var q := CloseSpec(p, fd, status).0;
    assert forall i :: 0 <= i < |q.slots| && i != fd ==> q.slots[i] == p.slots[i];
  }

  /** From reset: once standard output is redirected to a device and locked, closing it leaves the lock in place. */
  lemma ClosedStandardStaysLocked(n: nat, nullDev: nat, dev: nat, driver: Option<int>)
    requires n >= 4 && nullDev != 0 && dev != 0 && dev != nullDev
    ensures var p := OpenFdSpec(Initial(n, nullDev), 1, Device(dev), O_WRONLY, 0);
            var (q, rc) := IoctlSpec(p, 1, TIOCEXCL, driver);
            var (r, closed) := CloseSpec(q, 1, 0);
            rc == 0 && closed == 0 && r.slots[1].dev == dev && r.slots[1].flags.excl
  {
    var p0 := Initial(n, nullDev);
    InitialInv(n, nullDev, {});
    FreeIs(p0.slots, 3);
    OpenRefusedOnlyWhenLocked(p0, {}, Device(dev), O_WRONLY, 0);
    OpenFdConserves(p0, {}, 1, Device(dev), O_WRONLY, 0);
    var p := OpenFdSpec(p0, 1, Device(dev), O_WRONLY, 0);
    assert forall i :: 0 <= i < |p.slots| && i != 1 ==> p.slots[i] == p0.slots[i];
  }

  // ---------------------------------------------------------------- whole runs

  lemma StepKeepsInv(p: Pool, fs: FileSystems, e: Event)
    requires Inv(p, fs) && Legal(p, fs, e)
    ensures Inv(Step(p, fs, e), fs)
  {
    match e
    case Open(target, flags, status) => FailedOpenConserves(p, fs, target, flags, status);
    case Close(fd, status) =>
    case Ioctl(fd, req, driver) =>
    case Redirect(out, inp, err) => RedirectConserves(p, fs, out, inp, err);
  }

  predicate SafeEvent(p: Pool, fs: FileSystems, e: Event)
    requires p.maxFd < |p.slots|
  {
    e.Ioctl? && e.req == TIOCEXCL && 0 <= e.fd < |p.slots| && p.slots[e.fd].flags.isDev ==> LockSafe(p, e.fd)
  }

  /** Step by step, exclusive access survives exactly the safe events. */
  lemma StepKeepsExclusiveIff(p: Pool, fs: FileSystems, e: Event)
    requires Inv(p, fs) && Exclusive(p) && Legal(p, fs, e)
    ensures Exclusive(Step(p, fs, e)) <==> SafeEvent(p, fs, e)
  {
    match e
    case Open(target, flags, status) => OpenKeeps(p, fs, target, flags, status);
    case Close(fd, status) =>
      assert forall i :: 0 <= i < |p.slots| && i != fd ==> Step(p, fs, e).slots[i] == p.slots[i];
    case Ioctl(fd, req, driver) =>
      if fd >= 0 && p.slots[fd].flags.isDev && req == TIOCEXCL {
        LockIsExclusiveIff(p, fs, fd);
      }
    case Redirect(out, inp, err) => RedirectConserves(p, fs, out, inp, err);
  }

  /** A run is legal, and every lock request in it is safe. */
  ghost predicate SafeRun(p: Pool, fs: FileSystems, es: seq<Event>)
    requires Inv(p, fs)
    decreases |es|
  {
    es != [] ==>
      && Legal(p, fs, es[0]) && SafeEvent(p, fs, es[0])
      && (StepKeepsInv(p, fs, es[0]); SafeRun(Step(p, fs, es[0]), fs, es[1..]))
  }

  function Run(p: Pool, fs: FileSystems, es: seq<Event>): (q: Pool)
    requires Inv(p, fs) && SafeRun(p, fs, es)
    decreases |es|
  {
    if es == [] then p else
      StepKeepsInv(p, fs, es[0]);
      Run(Step(p, fs, es[0]), fs, es[1..])
  }

  /** Over every safe run from reset the pool invariant and exclusive access hold at the end, and so at every
      point of it. */
  lemma {:induction false} RunsAreExclusive(p: Pool, fs: FileSystems, es: seq<Event>)
    requires Inv(p, fs) && Exclusive(p) && SafeRun(p, fs, es)
    ensures Inv(Run(p, fs, es), fs) && Exclusive(Run(p, fs, es))
    decreases |es|
  {
    hide Inv, Exclusive, Step, Legal, SafeEvent;
    if es != [] {
      StepKeepsInv(p, fs, es[0]);
      StepKeepsExclusiveIff(p, fs, es[0]);
      RunsAreExclusive(Step(p, fs, es[0]), fs, es[1..]);
    }
  }

  /** Every event of a run finds the pool as the source asks. */
  ghost predicate LegalRun(p: Pool, fs: FileSystems, es: seq<Event>)
    requires Inv(p, fs)
    decreases |es|
  {
    es != [] ==>
      Legal(p, fs, es[0]) && (StepKeepsInv(p, fs, es[0]); LegalRun(Step(p, fs, es[0]), fs, es[1..]))
  }

  /** Exclusive access holds before and after every event of a run. */
  ghost predicate ExclusiveThroughout(p: Pool, fs: FileSystems, es: seq<Event>)
    requires Inv(p, fs) && LegalRun(p, fs, es)
    decreases |es|
  {
    Exclusive(p) && (es != [] ==> (StepKeepsInv(p, fs, es[0]); ExclusiveThroughout(Step(p, fs, es[0]), fs, es[1..])))
  }

  /** Over a legal run exclusive access holds throughout if and only if every lock request in it is safe. */
  lemma {:induction false} RunIsExclusiveIff(p: Pool, fs: FileSystems, es: seq<Event>)
    requires Inv(p, fs) && Exclusive(p) && LegalRun(p, fs, es)
    ensures ExclusiveThroughout(p, fs, es) <==> SafeRun(p, fs, es)
    decreases |es|
  {
    hide Inv, Exclusive, Step, Legal, SafeEvent;
    if es != [] {
      StepKeepsInv(p, fs, es[0]);
      StepKeepsExclusiveIff(p, fs, es[0]);
      if Exclusive(Step(p, fs, es[0])) {
        RunIsExclusiveIff(Step(p, fs, es[0]), fs, es[1..]);
      }
    }
  }
}
