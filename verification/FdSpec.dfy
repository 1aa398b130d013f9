/** What the file-descriptor services do to the descriptor pool, as functions on values. */
module FdSpec {
  import opened Words

  const EACCES := 13
  const ENODEV := 19
  const EMFILE := 24
  const ENOTTY := 25
  const EBADFD := 81

  /** fd_flags: the open mode in the low 30 bits, ALT_FD_EXCL and ALT_FD_DEV in the top two. */
  datatype Flags = Flags(mode: nat, excl: bool, isDev: bool)

  const NO_FLAGS := Flags(0, false, false)

  /** One descriptor. "dev" is the device it refers to, 0 when it is free. */
  datatype Fd = Fd(dev: nat, flags: Flags, priv: int)

  /** alt_fd_list, alt_max_fd and errno. */
  datatype Pool = Pool(slots: seq<Fd>, maxFd: int, errno: int)

  /** What the name lookups of open() find. */
  datatype Target = NoDevice | Device(dev: nat) | FileSystem(dev: nat)

  datatype Request = TIOCEXCL | TIOCNXCL | OtherRequest

  // ---------------------------------------------------------------- alt_get_fd, alt_release_fd

  function FirstFree(slots: seq<Fd>): (i: nat)
    ensures i <= |slots|
    ensures i < |slots| ==> slots[i].dev == 0
    ensures forall j :: 0 <= j < i ==> slots[j].dev != 0
  {
    if slots == [] || slots[0].dev == 0 then 0 else 1 + FirstFree(slots[1..])
  }

  function SetDev(p: Pool, i: nat, dev: nat): Pool
    requires i < |p.slots|
  {
    p.(slots := p.slots[i := p.slots[i].(dev := dev)])
  }

  function SetFlags(p: Pool, i: nat, flags: Flags): Pool
    requires i < |p.slots|
  {
    p.(slots := p.slots[i := p.slots[i].(flags := flags)])
  }

  function GetFdSpec(p: Pool, dev: nat): (Pool, int) {
    var i := FirstFree(p.slots);
    if i == |p.slots| then (p, -EMFILE)
    else (SetDev(p, i, dev).(maxFd := if i > p.maxFd then i else p.maxFd), i)
  }

  function ReleaseSpec(p: Pool, fd: int): Pool
    requires fd < |p.slots|
  {
    if fd > 2 then SetDev(SetFlags(p, fd, NO_FLAGS), fd, 0) else p
  }

  // ---------------------------------------------------------------- open

  /** Another descriptor holds the device of descriptor "k" exclusively. */
  predicate LockedByOther(p: Pool, k: nat)
    requires k < |p.slots| && p.maxFd < |p.slots|
  {
    exists i :: 0 <= i <= p.maxFd && i != k && p.slots[i].dev == p.slots[k].dev && p.slots[i].flags.excl
  }

  function ModeBits(flags: u32): nat {
    flags % 0x4000_0000
  }

  /** ALT_OPEN: "status" is what the driver's open callback answers, 0 if it has none. */
  function OpenSpec(p: Pool, target: Target, flags: u32, status: int): (Pool, int)
    requires p.maxFd < |p.slots|
  {
    if target.NoDevice? then
      (p.(errno := ENODEV), -1)
    else
      var (q, k) := GetFdSpec(p, target.dev);
      if k < 0 then
        (q.(errno := -k), -1)
      else
        var claimed := SetFlags(q, k, Flags(ModeBits(flags), false, target.Device?));
        if target.Device? && LockedByOther(claimed, k) then
          (ReleaseSpec(claimed, k).(errno := EACCES), -1)
        else if status < 0 then
          (ReleaseSpec(claimed, k).(errno := -status), -1)
        else
          (claimed, k)
  }

  // ---------------------------------------------------------------- close

  /** ALT_CLOSE: "status" is what the driver's close callback answers, 0 if it has none. */
  function CloseSpec(p: Pool, fd: int, status: int): (Pool, int)
    requires fd < |p.slots|
  {
    if fd < 0 then (p.(errno := EBADFD), -1)
    else
      var q := ReleaseSpec(p, fd);
      if status < 0 then (q.(errno := -status), -1) else (q, 0)
  }

  // ---------------------------------------------------------------- ioctl, lock, unlock

  /** The scan of alt_fd_lock: it stops short of slot alt_max_fd. */
  predicate SharedBelowMax(p: Pool, k: nat)
    requires k < |p.slots| && p.maxFd < |p.slots|
  {
    exists i :: 0 <= i < p.maxFd && i != k && p.slots[i].dev == p.slots[k].dev
  }

  function LockSpec(p: Pool, k: nat): (Pool, int)
    requires k < |p.slots| && p.maxFd < |p.slots|
  {
    if SharedBelowMax(p, k) then (p, -EACCES)
    else (SetFlags(p, k, p.slots[k].flags.(excl := true)), 0)
  }

  function UnlockSpec(p: Pool, k: nat): (Pool, int)
    requires k < |p.slots|
  {
    (SetFlags(p, k, p.slots[k].flags.(excl := false)), 0)
  }

  /** ALT_IOCTL: "driver" is what the driver's ioctl callback answers, None if it has none. */
  function IoctlSpec(p: Pool, fd: int, req: Request, driver: Option<int>): (Pool, int)
    requires fd < |p.slots| && p.maxFd < |p.slots|
  {
    var (q, rc) :=
      if fd < 0 then (p, -EBADFD)
      else if p.slots[fd].flags.isDev && req == TIOCEXCL then LockSpec(p, fd)
      else if p.slots[fd].flags.isDev && req == TIOCNXCL then UnlockSpec(p, fd)
      else (p, match driver case Some(status) => status case None => -ENOTTY);
    (if rc < 0 then q.(errno := -rc) else q, rc)
  }

  // ---------------------------------------------------------------- alt_io_redirect

  /** alt_open_fd: opens, copies the new descriptor over slot "std" and gives the new one back. */
  function OpenFdSpec(p: Pool, std: nat, target: Target, flags: u32, status: int): (q: Pool)
    requires p.maxFd < |p.slots| && std < |p.slots|
    ensures |q.slots| == |p.slots| && q.maxFd < |q.slots|
  {
    var (q, tmp) := OpenSpec(p, target, flags, status);
    if tmp >= 0 then ReleaseSpec(q.(slots := q.slots[std := q.slots[tmp]]), tmp) else q
  }

  const O_RDONLY: u32 := 0
  const O_WRONLY: u32 := 1

  /** The device found under one name and its driver's answer to the open. */
  datatype Channel = Channel(target: Target, status: int)

  function RedirectSpec(p: Pool, out: Channel, inp: Channel, err: Channel): (q: Pool)
    requires p.maxFd < |p.slots| && |p.slots| >= 3
    ensures |q.slots| == |p.slots| && q.maxFd < |q.slots|
  {
    var q := OpenFdSpec(p, 1, out.target, O_WRONLY, out.status);
    var r := OpenFdSpec(q, 0, inp.target, O_RDONLY, inp.status);
    OpenFdSpec(r, 2, err.target, O_WRONLY, err.status)
  }

  // ---------------------------------------------------------------- the state at reset

  /** The pool of "n" slots at reset: the standard descriptors on /dev/null, everything else zero. */
  function Initial(n: nat, nullDev: nat): (p: Pool)
    requires n >= 3
    ensures |p.slots| == n
    ensures forall i :: 0 <= i < n ==> p.slots[i] == Fd(if i < 3 then nullDev else 0, NO_FLAGS, 0)
  {
    Pool(seq(n, i => Fd(if i < 3 then nullDev else 0, NO_FLAGS, 0)), -1, 0)
  }
}
