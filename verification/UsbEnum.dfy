/** The task state and the device table of the USB host stack, updated in place by the interrupt handler, the
    state machine and the main loop. */
module UsbEnum {
  import opened Words
  import opened EnumSpec

  class HostStack {
    var task: byte             // usb_task_state
    const held: array<bool>    // devtable[i].epinfo != NULL
    var tmpAddr: nat
    var delay: nat
    var wasRunning: bool
    ghost var log: seq<Mark>

    ghost predicate Valid()
      reads this
    {
      held.Length == USB_NUMDEVICES + 1
    }

    ghost function View(): Stack
      reads this, held
    {
      Stack(task, held[..], tmpAddr, delay, wasRunning, log)
    }

    /** The start of main: MAX3421E_init and USB_init. */
    constructor (sample: Bus)
      ensures Valid() && fresh(held) && View() == Boot(sample)
    {
      held := new bool[USB_NUMDEVICES + 1];
      task, tmpAddr, delay, wasRunning, log := INITIALIZE, 0, 0, false, [];
      new;
      BusProbe(sample);
      UsbInit();
    }

    /** USB_init. */
    method UsbInit()
      requires Valid()
      modifies held
      ensures View() == EnumSpec.UsbInit(old(View()))
    {
      var i := 0;
      while i < USB_NUMDEVICES + 1
        invariant 0 <= i <= USB_NUMDEVICES + 1
        invariant forall j :: 0 <= j < i ==> !held[j]
      {
        held[i] := false;
        i := i + 1;
      }
      held[0] := true;
      assert held[..] == EnumSpec.UsbInit(old(View())).held;
    }

    /** MAX_busprobe. */
    method BusProbe(sample: Bus)
      modifies this`task
      ensures View() == EnumSpec.BusProbe(old(View()), sample)
    {
      match sample {
        case J =>
          if task != WAIT_RESET_COMPLETE {
            task := ATTACHED;
          }
        case K =>
          if task != WAIT_RESET_COMPLETE {
            task := ATTACHED;
          }
        case SE1 =>
          task := ILLEGAL;
        case SE0 =>
          if MaskState(task) != 0 {
            task := INITIALIZE;
          } else {
            task := WAIT_FOR_DEVICE;
          }
      }
    }

    /** MAX3421E_Task and MaxIntHandler. */
    method MaxTask(i: Inputs)
      modifies this`task
      ensures View() == EnumSpec.MaxTask(old(View()), i)
    {
      if i.irq {
        if i.condet {
          BusProbe(i.sample);
        }
        if i.busEvent {
          task := (task + 1) % 256;
        }
      }
    }

    /** The ADDRESSING branch: the first free address is taken and offered to the device. */
    method AssignAddress(setAddr: byte)
      requires Valid()
      modifies this`task, this`tmpAddr, this`log, held
      ensures View() == EnumSpec.Address(old(View()), setAddr)
    {
      var i := 1;
      while i < USB_NUMDEVICES
        invariant 1 <= i <= USB_NUMDEVICES
        invariant View() == old(View()) && FreeAddress(held[..], 1) == FreeAddress(held[..], i)
      {
        if !held[i] {
          held[i] := true;
          if setAddr == 0 {
            tmpAddr := i;
            task := CONFIGURING;
            log := log + [Addressed(i)];
          } else {
            task := ERROR;
          }
          return;
        }
        i := i + 1;
      }
      if task == ADDRESSING {
        task := ERROR;
      }
    }

    /** The CONFIGURING branch: the class drivers are probed in table order until one takes the device. */
    method RunProbes(mouse: bool, keyboard: bool)
      modifies this`task, this`log
      ensures View() == EnumSpec.Configure(old(View()), mouse, keyboard)
    {
      var drivers := [false, mouse, keyboard, false];
      var i := 0;
      while i < |drivers|
        invariant 0 <= i <= |drivers| && View() == old(View())
        invariant forall j :: 0 <= j < i ==> !drivers[j]
      {
        if drivers[i] {
          task := RUNNING;
          log := log + [Probed(tmpAddr)];
          break;
        }
        i := i + 1;
      }
      assert drivers[1] == mouse && drivers[2] == keyboard;
      if task == CONFIGURING {
        task := ERROR;
      }
    }

    /** USB_Task. */
    method UsbTask(i: Inputs)
      requires Valid()
      modifies this`task, this`tmpAddr, this`delay, this`log, held
      ensures View() == EnumSpec.UsbTask(old(View()), i)
    {
      var state := MaskState(task);
      if state == 0 {
        if task == INITIALIZE {
          UsbInit();
          task := WAIT_FOR_DEVICE;
        }
      } else if state == ATTACHED {
        if task == ATTACHED {
          delay := i.now + SETTLE_MS;
          task := SETTLE;
        } else if task == SETTLE {
          if i.now > delay {
            task := RESET_DEVICE;
          }
        } else if task == RESET_DEVICE {
          task := WAIT_RESET_COMPLETE;
        } else if task == WAIT_RESET_COMPLETE {
          if !i.resetting {
            task := WAIT_SOF;
          }
        } else if task == WAIT_SOF {
          task := GET_DEVICE_DESCRIPTOR_SIZE;
        } else if task == GET_DEVICE_DESCRIPTOR_SIZE {
          if i.getDescr == 0 {
            task := ADDRESSING;
          } else {
            task := ERROR;
          }
        }
      } else if state == ADDRESSING {
        AssignAddress(i.setAddr);
      } else if state == CONFIGURING {
        RunProbes(i.mouse, i.keyboard);
      }
    }

    /** One pass of the main loop. */
    method MainStep(i: Inputs)
      requires Valid()
      modifies this`task, this`tmpAddr, this`delay, this`log, this`wasRunning, held
      ensures View() == EnumSpec.MainStep(old(View()), i)
    {
      MaxTask(i);
      UsbTask(i);
      if task == RUNNING {
        if !wasRunning {
          wasRunning := true;
        }
      } else if task != ERROR {
        if wasRunning {
          wasRunning := false;
          BusProbe(i.sampleAtInit);
          UsbInit();
        }
      }
    }
  }
}
