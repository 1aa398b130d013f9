/** What each descriptor service does, said of the descriptors themselves: which one changes, how, with which
    error number, and that locking and unlocking undo each other. */
module FdServices {
  import opened Words
  import opened FdSpec
  import opened FdTheorems

  /** Every descriptor but "k" is the same in both pools. */
  ghost predicate SameButFor(p: Pool, q: Pool, k: int) {
    |q.slots| == |p.slots| && forall i :: 0 <= i < |p.slots| && i != k ==> q.slots[i] == p.slots[i]
  }

  // ---------------------------------------------------------------- open and close

  /** A successful open takes the first free descriptor for the device that was found, in the mode asked for with
      the two status bits masked off, not exclusive, and marked as a device unless it is a filesystem; the
      high-water mark covers it. */
  lemma OpenClaims(p: Pool, t: Target, flags: u32, status: int)
    requires p.maxFd < |p.slots| && OpenSpec(p, t, flags, status).1 >= 0
    ensures var (q, k) := OpenSpec(p, t, flags, status);
            && t != NoDevice && status >= 0
            && k < |p.slots| && p.slots[k].dev == 0 && (forall i :: 0 <= i < k ==> p.slots[i].dev != 0)
            && SameButFor(p, q, k)
            && q.slots[k] == Fd(t.dev, Flags(flags % 0x4000_0000, false, t.Device?), p.slots[k].priv)
            && q.maxFd == (if k > p.maxFd then k else p.maxFd) && q.errno == p.errno
  {
  }

  /** The error numbers of open: no device 19, no free descriptor 24, the device locked by another descriptor 13,
      anything else what the driver answered. */
  lemma OpenErrors(p: Pool, fs: FileSystems, t: Target, flags: u32, status: int)
    requires Inv(p, fs) && TargetOk(t, fs) && OpenSpec(p, t, flags, status).1 < 0
    ensures var full := forall i :: 0 <= i < |p.slots| ==> p.slots[i].dev != 0;
            var locked := t.Device?
                          && exists i :: 0 <= i < |p.slots| && p.slots[i].dev == t.dev && p.slots[i].flags.excl;
            OpenSpec(p, t, flags, status).0.errno
              == if t == NoDevice then 19 else if full then 24 else if locked then 13 else -status
  {
    if t != NoDevice && FirstFree(p.slots) < |p.slots| {
      LockedIs(p, fs, t, flags);
      OpenErrorIs(p, t, flags, status);
    }
  }

  lemma LockedIs(p: Pool, fs: FileSystems, t: Target, flags: u32)
    requires Inv(p, fs) && t != NoDevice && TargetOk(t, fs) && FirstFree(p.slots) < |p.slots|
    ensures var c := Claim(p, t, flags);
            && c.maxFd < |c.slots| && |c.slots| == |p.slots|
            && (LockedByOther(c, FirstFree(p.slots)) <==>
                exists i :: 0 <= i < |p.slots| && p.slots[i].dev == t.dev && p.slots[i].flags.excl)
  {
    var c, k := Claim(p, t, flags), FirstFree(p.slots);
    ClaimInv(p, fs, t, flags);
    assert forall i :: 0 <= i < |p.slots| && i != k ==> c.slots[i] == p.slots[i];
    if i :| 0 <= i < |p.slots| && p.slots[i].dev == t.dev && p.slots[i].flags.excl {
      assert i != k && i <= c.maxFd && c.slots[i] == p.slots[i];
    }
  }

  lemma OpenErrorIs(p: Pool, t: Target, flags: u32, status: int)
    requires p.maxFd < |p.slots| && t != NoDevice && FirstFree(p.slots) < |p.slots|
    requires OpenSpec(p, t, flags, status).1 < 0
    ensures var c := Claim(p, t, flags);
            && c.maxFd < |c.slots| && |c.slots| == |p.slots|
            && OpenSpec(p, t, flags, status).0.errno
                 == if t.Device? && LockedByOther(c, FirstFree(p.slots)) then 13 else -status
  {
  }

  /** Closing frees the descriptor, mode, marks and lock included, unless it is a standard one; a driver that
      refuses is reported but does not keep it. */
  lemma CloseFrees(p: Pool, fd: nat, status: int)
    requires fd < |p.slots|
    ensures var (q, rc) := CloseSpec(p, fd, status);
            && SameButFor(p, q, fd)
            && q.slots[fd] == (if fd > 2 then Fd(0, Flags(0, false, false), p.slots[fd].priv) else p.slots[fd])
            && q.maxFd == p.maxFd
            && rc == (if status < 0 then -1 else 0)
            && q.errno == (if status < 0 then -status else p.errno)
  {
  }

  // ---------------------------------------------------------------- ioctl

  /** A lock request on a device is refused with 13 and without a change if another descriptor below the high-water
      mark is on the device; otherwise it marks exactly this descriptor as exclusive. */
  lemma LockMarks(p: Pool, fd: nat, driver: Option<int>)
    requires fd < |p.slots| && p.maxFd < |p.slots| && p.slots[fd].flags.isDev
    ensures var (q, rc) := IoctlSpec(p, fd, TIOCEXCL, driver);
            if exists i :: 0 <= i < p.maxFd && i != fd && p.slots[i].dev == p.slots[fd].dev then
              rc == -13 && q == p.(errno := 13)
            else
              && rc == 0 && q.maxFd == p.maxFd && q.errno == p.errno && SameButFor(p, q, fd)
              && q.slots[fd] == Fd(p.slots[fd].dev, Flags(p.slots[fd].flags.mode, true, true), p.slots[fd].priv)
  {
  }

  /** An unlock always succeeds: it clears the exclusive mark of exactly this descriptor, whose device, mode and
      private data stay. */
  lemma UnlockClears(p: Pool, fd: nat, driver: Option<int>)
    requires fd < |p.slots| && p.maxFd < |p.slots| && p.slots[fd].flags.isDev
    ensures var (q, rc) := IoctlSpec(p, fd, TIOCNXCL, driver);
            && rc == 0 && q.maxFd == p.maxFd && q.errno == p.errno && SameButFor(p, q, fd)
            && q.slots[fd] == Fd(p.slots[fd].dev, Flags(p.slots[fd].flags.mode, false, true), p.slots[fd].priv)
  {
  }

  /** Every other request, and every request on a filesystem, is the driver's to answer; without an answer it is
      refused with 25. No descriptor changes. */
  lemma OthersAreForwarded(p: Pool, fd: nat, req: Request, driver: Option<int>)
    requires fd < |p.slots| && p.maxFd < |p.slots| && (req == OtherRequest || !p.slots[fd].flags.isDev)
    ensures var (q, rc) := IoctlSpec(p, fd, req, driver);
            && rc == (if driver.Some? then driver.value else -25)
            && q == p.(errno := if rc < 0 then -rc else p.errno)
  {
  }

  /** Negative descriptors are refused with 81. */
  lemma NegativeIsRefused(p: Pool, fd: int, req: Request, driver: Option<int>, status: int)
    requires fd < 0 && p.maxFd < |p.slots|
    ensures IoctlSpec(p, fd, req, driver) == (p.(errno := 81), -81)
    ensures CloseSpec(p, fd, status) == (p.(errno := 81), -1)
  {
  }

  // ---------------------------------------------------------------- redirection

  /** Nothing stands against opening the channel: its name is found, the driver accepts, a descriptor above the
      standard ones is free, and none holds the device exclusively. */
  ghost predicate Opens(p: Pool, c: Channel) {
    && c.target != NoDevice && c.status >= 0
    && (exists i :: 3 <= i < |p.slots| && p.slots[i].dev == 0)
    && (c.target.Device? ==>
          forall i :: 0 <= i < |p.slots| && p.slots[i].dev == c.target.dev ==> !p.slots[i].flags.excl)
  }

  /** Something stands against it that no redirection changes. */
  ghost predicate Stuck(p: Pool, c: Channel) {
    || c.target == NoDevice || c.status < 0
    || (forall i :: 3 <= i < |p.slots| ==> p.slots[i].dev != 0)
    || (c.target.Device? &&
          exists i :: 3 <= i < |p.slots| && p.slots[i].dev == c.target.dev && p.slots[i].flags.excl)
  }

  /** The descriptor refers to the channel's device, opened in this mode. */
  predicate On(f: Fd, c: Channel, mode: nat) {
    c.target != NoDevice && f.dev == c.target.dev && f.flags == Flags(mode, false, c.target.Device?)
  }

  lemma ChannelOpens(p: Pool, fs: FileSystems, std: nat, c: Channel, flags: u32)
    requires Inv(p, fs) && std < 3 && TargetOk(c.target, fs) && flags < 3
    ensures var q := OpenFdSpec(p, std, c.target, flags, c.status);
            && Inv(q, fs) && SameButFor(p, q, std)
            && (q.slots[std] == p.slots[std] || On(q.slots[std], c, flags))
            && (Opens(p, c) ==> On(q.slots[std], c, flags))
            && (Stuck(p, c) ==> q.slots[std] == p.slots[std])
  {
    OpenFdConserves(p, fs, std, c.target, flags, c.status);
    if Opens(p, c) || (Stuck(p, c) && c.status >= 0) {
      OpenRefusedOnlyWhenLocked(p, fs, c.target, flags, c.status);
    }
  }

  /** Redirecting opens: standard output, input and error come to refer to the devices of their names, 0 for reading,
      1 and 2 for writing, whenever nothing stands against it, and stay as they are when something does. */
  lemma RedirectOpens(p: Pool, fs: FileSystems, out: Channel, inp: Channel, err: Channel)
    requires Inv(p, fs) && Legal(p, fs, Redirect(out, inp, err))
    ensures var q := RedirectSpec(p, out, inp, err);
            && (Opens(p, inp) ==> On(q.slots[0], inp, 0)) && (Stuck(p, inp) ==> q.slots[0] == p.slots[0])
            && (Opens(p, out) ==> On(q.slots[1], out, 1)) && (Stuck(p, out) ==> q.slots[1] == p.slots[1])
            && (Opens(p, err) ==> On(q.slots[2], err, 1)) && (Stuck(p, err) ==> q.slots[2] == p.slots[2])
  {
    hide Inv, OpenFdSpec, Stuck, Opens, TargetOk;
    AtLeastThree(p, fs);
    var q := OpenFdSpec(p, 1, out.target, O_WRONLY, out.status);
    ChannelOpens(p, fs, 1, out, O_WRONLY);
    OpensKept(p, q, 1, inp);
    OpensKept(p, q, 1, err);
    var r := OpenFdSpec(q, 0, inp.target, O_RDONLY, inp.status);
    ChannelOpens(q, fs, 0, inp, O_RDONLY);
    OpensKept(q, r, 0, err);
    ChannelOpens(r, fs, 2, err, O_WRONLY);
  }

  lemma AtLeastThree(p: Pool, fs: FileSystems)
    requires Inv(p, fs)
    ensures 3 <= |p.slots| && p.maxFd < |p.slots|
  {
  }

  /** Redirecting one channel leaves the other as openable, or as stuck, as it was: the standard descriptor gets no
      lock. */
  lemma OpensKept(p: Pool, q: Pool, std: nat, other: Channel)
    requires |p.slots| >= 3 > std && SameButFor(p, q, std)
    requires q.slots[std].flags.excl ==> q.slots[std] == p.slots[std]
    ensures (Opens(p, other) ==> Opens(q, other)) && (Stuck(p, other) ==> Stuck(q, other))
  {
  }

  // ---------------------------------------------------------------- lock and unlock

  /** Unlocking undoes locking: a granted lock of a descriptor that was not exclusive, followed by an unlock, leaves
      the whole pool as it was. */
  lemma UnlockUndoesLock(p: Pool, fd: nat, driver: Option<int>)
    requires fd < |p.slots| && p.maxFd < |p.slots| && p.slots[fd].flags.isDev && !p.slots[fd].flags.excl
    requires IoctlSpec(p, fd, TIOCEXCL, driver).1 == 0
    ensures IoctlSpec(IoctlSpec(p, fd, TIOCEXCL, driver).0, fd, TIOCNXCL, driver) == (p, 0)
  {
    var q := IoctlSpec(p, fd, TIOCEXCL, driver).0;
    LockMarks(p, fd, driver);
    UnlockClears(q, fd, driver);
    var r := IoctlSpec(q, fd, TIOCNXCL, driver).0;
    assert r.slots[fd] == p.slots[fd];
    assert r.slots == p.slots;
  }

  /** An unlock makes the device available: while exclusive access holds, once the descriptor that may hold the
      device is unlocked every open of the device that the driver accepts succeeds, as long as one descriptor is
      free. */
  lemma UnlockedDeviceOpens(p: Pool, fs: FileSystems, fd: nat, free: nat, driver: Option<int>, flags: u32, status: int)
    requires Inv(p, fs) && Exclusive(p) && Allocated(p, fd) && p.slots[fd].flags.isDev
    requires free < |p.slots| && p.slots[free].dev == 0 && status >= 0
    ensures var q := IoctlSpec(p, fd, TIOCNXCL, driver).0;
            OpenSpec(q, Device(p.slots[fd].dev), flags, status).1 >= 0
  {
    var q := IoctlSpec(p, fd, TIOCNXCL, driver).0;
    UnlockClears(p, fd, driver);
    StepKeepsInv(p, fs, Ioctl(fd, TIOCNXCL, driver));
    OpenRefusedOnlyWhenLocked(q, fs, Device(p.slots[fd].dev), flags, status);
    assert q.slots[free] == p.slots[free];
    forall i | 0 <= i < |q.slots| && q.slots[i].dev == p.slots[fd].dev
      ensures !q.slots[i].flags.excl
    {
      assert i != fd ==> q.slots[i] == p.slots[i];
    }
  }

  /** Exclusive access from lock to unlock: a granted safe lock keeps every later open of the device out, and after
      the unlock it is let in. */
  lemma LockShutsOutUntilUnlock(p: Pool, fs: FileSystems, fd: nat, free: nat, driver: Option<int>, flags: u32,
                                status: int)
    requires Inv(p, fs) && Exclusive(p) && Allocated(p, fd) && p.slots[fd].flags.isDev && LockSafe(p, fd)
    requires free < |p.slots| && p.slots[free].dev == 0 && status >= 0
    requires IoctlSpec(p, fd, TIOCEXCL, driver).1 == 0
    ensures var t := Device(p.slots[fd].dev);
            var q := IoctlSpec(p, fd, TIOCEXCL, driver).0;
            var r := IoctlSpec(q, fd, TIOCNXCL, driver).0;
            OpenSpec(q, t, flags, status).1 == -1 && OpenSpec(r, t, flags, status).1 >= 0
  {
    var q := IoctlSpec(p, fd, TIOCEXCL, driver).0;
    LockMarks(p, fd, driver);
    StepKeepsInv(p, fs, Ioctl(fd, TIOCEXCL, driver));
    StepKeepsExclusiveIff(p, fs, Ioctl(fd, TIOCEXCL, driver));
    OpenOfLockedDeviceFails(q, fs, fd, Device(p.slots[fd].dev), flags, status);
    assert q.slots[free] == p.slots[free];
    UnlockedDeviceOpens(q, fs, fd, free, driver, flags, status);
  }
}
