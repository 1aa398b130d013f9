/** The enumeration state machine of the USB host stack: what one pass of the main loop does to the task
    state and the device table, for every state of the bus and every outcome of the requests. */
module EnumSpec {
  import opened Words

  const INITIALIZE: byte := 0x01
  const WAIT_FOR_DEVICE: byte := 0x03
  const ILLEGAL: byte := 0x04
  const ATTACHED: byte := 0x10
  const SETTLE: byte := 0x11
  const RESET_DEVICE: byte := 0x12
  const WAIT_RESET_COMPLETE: byte := 0x13
  const WAIT_SOF: byte := 0x14
  const GET_DEVICE_DESCRIPTOR_SIZE: byte := 0x15
  const ADDRESSING: byte := 0x20
  const CONFIGURING: byte := 0x30
  const RUNNING: byte := 0x40
  const ERROR: byte := 0xff

  const USB_NUMDEVICES := 8
  const SETTLE_MS := 200

  /** The J and K lines of the bus as sampled. */
  datatype Bus = J | K | SE0 | SE1

  /** What has been achieved so far: an address acknowledged by the device, a probe that returned TRUE. */
  datatype Mark = Addressed(addr: nat) | Probed(addr: nat)

  /** usb_task_state, which device table entries have endpoint records, tmp_addr, usb_delay, the main loop's
      runningdebugflag, and the history. */
  datatype Stack = Stack(task: byte, held: seq<bool>, tmpAddr: nat, delay: nat, wasRunning: bool, log: seq<Mark>)

  predicate TableOk(s: Stack) {
    |s.held| == USB_NUMDEVICES + 1
  }

  /** What one pass of the main loop meets: the interrupt line and its causes, the bus when it is probed, the
      time, the chip's reset bit, how the requests end, and the bus once more in case of a re-init. */
  datatype Inputs = Inputs(irq: bool, condet: bool, sample: Bus, busEvent: bool, now: nat, resetting: bool,
                           getDescr: byte, setAddr: byte, mouse: bool, keyboard: bool, sampleAtInit: Bus)

  function MaskState(task: byte): byte {
    task / 16 * 16
  }

  // ---------------------------------------------------------------- USB_init, MAX_busprobe, MaxIntHandler

  function UsbInit(s: Stack): (t: Stack)
    ensures TableOk(t)
  {
    s.(held := seq(USB_NUMDEVICES + 1, i => i == 0))
  }

  function BusProbe(s: Stack, sample: Bus): Stack {
    match sample
    case SE1 => s.(task := ILLEGAL)
    case SE0 => s.(task := if MaskState(s.task) != 0 then INITIALIZE else WAIT_FOR_DEVICE)
    case _ => if s.task == WAIT_RESET_COMPLETE then s else s.(task := ATTACHED)
  }

  function IntHandler(s: Stack, i: Inputs): Stack {
    var t := if i.condet then BusProbe(s, i.sample) else s;
    if i.busEvent then t.(task := (t.task + 1) % 256) else t
  }

  function MaxTask(s: Stack, i: Inputs): Stack {
    if i.irq then IntHandler(s, i) else s
  }

  // ---------------------------------------------------------------- USB_Task

  /** The first address from "from" on that is not held, or USB_NUMDEVICES. */
  function FreeAddress(held: seq<bool>, from: nat): (a: nat)
    requires |held| == USB_NUMDEVICES + 1 && 1 <= from <= USB_NUMDEVICES
    ensures from <= a <= USB_NUMDEVICES
    ensures a < USB_NUMDEVICES ==> !held[a]
    decreases USB_NUMDEVICES - from
  {
    if from == USB_NUMDEVICES || !held[from] then from else FreeAddress(held, from + 1)
  }

  /** The ADDRESSING branch. The switch is on the high nibble, so the branch also runs in task states beside
      the named one; only the named state is left as an error when no address is free. */
  function Address(s: Stack, setAddr: byte): Stack
    requires TableOk(s)
  {
    var a := FreeAddress(s.held, 1);
    if a < USB_NUMDEVICES then
      var t := s.(held := s.held[a := true]);
      if setAddr == 0 then t.(tmpAddr := a, task := CONFIGURING, log := s.log + [Addressed(a)]) else t.(task := ERROR)
    else if s.task == ADDRESSING then s.(task := ERROR)
    else s
  }

  /** The CONFIGURING branch, with the same remark. */
  function Configure(s: Stack, mouse: bool, keyboard: bool): Stack {
    if mouse || keyboard then s.(task := RUNNING, log := s.log + [Probed(s.tmpAddr)])
    else if s.task == CONFIGURING then s.(task := ERROR)
    else s
  }

  function UsbTask(s: Stack, i: Inputs): (t: Stack)
    requires TableOk(s)
    ensures TableOk(t)
  {
    if s.task == INITIALIZE then UsbInit(s).(task := WAIT_FOR_DEVICE)
    else if s.task == ATTACHED then s.(task := SETTLE, delay := i.now + SETTLE_MS)
    else if s.task == SETTLE then (if i.now > s.delay then s.(task := RESET_DEVICE) else s)
    else if s.task == RESET_DEVICE then s.(task := WAIT_RESET_COMPLETE)
    else if s.task == WAIT_RESET_COMPLETE then (if i.resetting then s else s.(task := WAIT_SOF))
    else if s.task == WAIT_SOF then s.(task := GET_DEVICE_DESCRIPTOR_SIZE)
    else if s.task == GET_DEVICE_DESCRIPTOR_SIZE then s.(task := if i.getDescr == 0 then ADDRESSING else ERROR)
    else if MaskState(s.task) == ADDRESSING then Address(s, i.setAddr)
    else if MaskState(s.task) == CONFIGURING then Configure(s, i.mouse, i.keyboard)
    else s
  }

  // ---------------------------------------------------------------- the main loop

  /** MAX3421E_init and USB_init again once the stack has left RUNNING. */
  function Reinit(s: Stack, i: Inputs): Stack {
    UsbInit(BusProbe(s.(wasRunning := false), i.sampleAtInit))
  }

  function MainStep(s: Stack, i: Inputs): (t: Stack)
    requires TableOk(s)
    ensures TableOk(t)
  {
    var t := UsbTask(MaxTask(s, i), i);
    if t.task == RUNNING then t.(wasRunning := true)
    else if t.task == ERROR then t
    else if t.wasRunning then Reinit(t, i)
    else t
  }

  /** Before the loop: the chip is initialised, then the tables. */
  function Boot(sample: Bus): (s: Stack)
    ensures TableOk(s)
  {
    UsbInit(BusProbe(Stack(INITIALIZE, [], 0, 0, false, []), sample))
  }
}
