/** The file-descriptor services as the HAL implements them: scans over a fixed array of descriptors that
    are cut short by a high-water mark, and updates of the slots in place. */
module AltFd {
  import opened Words
  import opened FdSpec

  class FdTable {
    const slots: array<Fd>     // alt_fd_list
    var maxFd: int             // alt_max_fd
    var errno: int

    ghost predicate Valid()
      reads this
    {
      -1 <= maxFd < slots.Length < W31
    }

    ghost function View(): Pool
      reads this, slots
    {
      Pool(slots[..], maxFd, errno)
    }

    constructor (n: nat, nullDev: nat)
      requires 3 <= n < W31
      ensures Valid() && fresh(slots) && View() == Initial(n, nullDev)
    {
      slots := new Fd[n](i => Fd(if 0 <= i < 3 then nullDev else 0, NO_FLAGS, 0));
      maxFd := -1;
      errno := 0;
      new;
      assert slots[..] == Initial(n, nullDev).slots;
    }

    /** alt_get_fd: allocates the first free descriptor and raises the high-water mark. */
    method GetFd(dev: nat) returns (rc: int)
      requires Valid()
      modifies this`maxFd, slots
      ensures Valid() && (View(), rc) == GetFdSpec(old(View()), dev)
    {
      rc := -EMFILE;
      var i := 0;
      while i < slots.Length
        invariant 0 <= i <= slots.Length
        invariant forall j :: 0 <= j < i ==> slots[j].dev != 0
      {
        if slots[i].dev == 0 {
          FirstFreeIs(slots[..], i);
          slots[i] := slots[i].(dev := dev);
          if i > maxFd {
            maxFd := i;
          }
          return i;
        }
        i := i + 1;
      }
      FirstFreeIs(slots[..], i);
    }

    /** alt_release_fd: the standard descriptors are never given back. */
    method ReleaseFd(fd: int)
      requires fd < slots.Length
      modifies slots
      ensures View() == ReleaseSpec(old(View()), fd)
    {
      if fd > 2 {
        slots[fd] := slots[fd].(flags := NO_FLAGS);
        slots[fd] := slots[fd].(dev := 0);
      }
    }

    /** alt_file_locked: marks the descriptor as a device's and looks for another one that holds the device.
        The C loop compares an unsigned index with the signed mark. */
    method FileLocked(fd: nat) returns (rc: int)
      requires Valid() && fd < slots.Length && 0 <= maxFd
      modifies slots
      ensures View() == SetFlags(old(View()), fd, old(slots[fd].flags).(isDev := true))
      ensures rc == if LockedByOther(View(), fd) then -EACCES else 0
    {
      slots[fd] := slots[fd].(flags := slots[fd].flags.(isDev := true));
      var limit := maxFd % W32;
      var i := 0;
      while i <= limit
        invariant 0 <= i <= limit + 1
        invariant forall j :: 0 <= j < i ==>
          !(j != fd && slots[j].dev == slots[fd].dev && slots[j].flags.excl)
      {
        if slots[i].dev == slots[fd].dev && slots[i].flags.excl && i != fd {
          return -EACCES;
        }
        i := i + 1;
      }
      return 0;
    }

    /** ALT_OPEN. */
    method Open(target: Target, flags: u32, status: int) returns (rc: int)
      requires Valid()
      modifies this`maxFd, this`errno, slots
      ensures Valid() && (View(), rc) == OpenSpec(old(View()), target, flags, status)
    {
      var index, st := -1, -ENODEV;
      if target != NoDevice {
        index := GetFd(target.dev);
        if index < 0 {
          st := index;
        } else {
          slots[index] := slots[index].(flags := Flags(ModeBits(flags), false, false));
          ghost var claimed := SetFlags(GetFdSpec(old(View()), target.dev).0, index,
                                        Flags(ModeBits(flags), false, target.Device?));
          st := 0;
          if target.Device? {
            st := FileLocked(index);
          }
          assert View() == claimed;
          if st >= 0 {
            st := status;
          }
        }
      }
      if st < 0 {
        ReleaseFd(index);
        errno := -st;
        return -1;
      }
      return index;
    }

    /** ALT_CLOSE. */
    method Close(fd: int, status: int) returns (rc: int)
      requires Valid() && fd < slots.Length && (fd >= 0 ==> slots[fd].dev != 0)
      modifies this`errno, slots
      ensures Valid() && (View(), rc) == CloseSpec(old(View()), fd, status)
    {
      if fd >= 0 {
        ReleaseFd(fd);
        if status < 0 {
          errno := -status;
          return -1;
        }
        return 0;
      } else {
        errno := EBADFD;
        return -1;
      }
    }

    /** alt_fd_lock. */
    method FdLock(fd: nat) returns (rc: int)
      requires Valid() && fd < slots.Length
      modifies slots
      ensures (View(), rc) == LockSpec(old(View()), fd)
    {
      var i := 0;
      while i < maxFd
        invariant 0 <= i && (i <= maxFd || i == 0)
        invariant forall j :: 0 <= j < i ==> !(j != fd && slots[j].dev == slots[fd].dev)
      {
        if i != fd && slots[i].dev == slots[fd].dev {
          return -EACCES;
        }
        i := i + 1;
      }
      slots[fd] := slots[fd].(flags := slots[fd].flags.(excl := true));
      return 0;
    }

    /** alt_fd_unlock. */
    method FdUnlock(fd: nat) returns (rc: int)
      requires fd < slots.Length
      modifies slots
      ensures rc == 0 && slots[fd] == old(slots[fd]).(flags := old(slots[fd].flags).(excl := false))
      ensures forall i :: 0 <= i < slots.Length && i != fd ==> slots[i] == old(slots[i])
      ensures (View(), rc) == UnlockSpec(old(View()), fd)
    {
      slots[fd] := slots[fd].(flags := slots[fd].flags.(excl := false));
      return 0;
    }

    /** ALT_IOCTL. */
    method Ioctl(fd: int, req: Request, driver: Option<int>) returns (rc: int)
      requires Valid() && fd < slots.Length && (fd >= 0 ==> slots[fd].dev != 0)
      modifies this`errno, slots
      ensures Valid() && (View(), rc) == IoctlSpec(old(View()), fd, req, driver)
    {
      if fd < 0 {
        rc := -EBADFD;
      } else if slots[fd].flags.isDev && req == TIOCEXCL {
        rc := FdLock(fd);
      } else if slots[fd].flags.isDev && req == TIOCNXCL {
        rc := FdUnlock(fd);
      } else {
        match driver {
          case Some(answer) => rc := answer;
          case None => rc := -ENOTTY;
        }
      }
      if rc < 0 {
        errno := -rc;
      }
    }

    /** alt_open_fd. */
    method OpenFd(std: nat, target: Target, flags: u32, status: int)
      requires Valid() && std < slots.Length
      modifies this`maxFd, this`errno, slots
      ensures Valid() && View() == OpenFdSpec(old(View()), std, target, flags, status)
    {
      var rc := Open(target, flags, status);
      if rc >= 0 {
        slots[std] := slots[rc];
        ReleaseFd(rc);
      }
    }

    /** alt_io_redirect. */
    method IoRedirect(out: Channel, inp: Channel, err: Channel)
      requires Valid() && slots.Length >= 3
      modifies this`maxFd, this`errno, slots
      ensures Valid() && View() == RedirectSpec(old(View()), out, inp, err)
    {
      OpenFd(1, out.target, O_WRONLY, out.status);
      OpenFd(0, inp.target, O_RDONLY, inp.status);
      OpenFd(2, err.target, O_WRONLY, err.status);
    }
  }

  lemma {:induction false} FirstFreeIs(slots: seq<Fd>, i: nat)
    requires i <= |slots| && (i < |slots| ==> slots[i].dev == 0)
    requires forall j :: 0 <= j < i ==> slots[j].dev != 0
    ensures FirstFree(slots) == i
  {
  }
}
