/** The DE1-SoC driver of the FPGA program (DESoC1Drivers.c): four globals,
    fd, lw_bridge_base, pixel_in_pio and pixel_out_pio, set up by
    configure_fpga, checked by write_to_fpga and read_from_fpga, and torn down
    by cleanup_fpga. The results of open and mmap are parameters. The
    accelerator behind the bridge is not part of this model: the byte on its
    output register is an oracle function of every word it has received on
    the input register, in order, so it may remember earlier words. */
module FpgaDriver {
  import opened Bytes
  import opened BmpLayout
  import opened Optional

  /** lw_bridge_base: NULL, MAP_FAILED, or the address mmap returned. */
  datatype Mapping = Null | MapFailed | Mapped(address: nat)

  /** The driver's globals and the word held by the 32-bit input register.
      A register pointer is None while it is NULL. */
  datatype DriverState = DriverState(fd: int, lwBridgeBase: Mapping,
                                     pixelInPio: Option<nat>, pixelOutPio: Option<nat>,
                                     inputRegister: Dword)

  /** One register access through the bridge. */
  datatype Access = Wrote(word: Dword) | Read(value: byte)

  /** The system calls the driver makes. */
  datatype OsCall = OpenMem | MapBridge(fd: int) | Close(fd: int) | Unmap(base: Mapping)

  /** Both register pointers are set: writes and reads reach the hardware. */
  predicate Configured(s: DriverState)
  {
    s.pixelInPio.Some? && s.pixelOutPio.Some?
  }

  // ---------------------------------------------------------------------
  // configure_fpga

  /** The globals after configure_fpga, given what open("/dev/mem") and mmap return. */
  function ConfigureState(s: DriverState, openResult: int, mapResult: Mapping): DriverState
    requires mapResult != Null
  {
    if openResult == -1 then s.(fd := -1)
    else if mapResult == MapFailed then s.(fd := openResult, lwBridgeBase := MapFailed)
    else s.(fd := openResult, lwBridgeBase := mapResult,
            pixelInPio := Some(mapResult.address + PIXEL_IN_PIO_BASE),
            pixelOutPio := Some(mapResult.address + PIXEL_OUT_PIO_BASE))
  }

  function ConfigureStatus(openResult: int, mapResult: Mapping): int
  {
    if openResult == -1 || mapResult == MapFailed then -1 else 0
  }

  function ConfigureCalls(openResult: int, mapResult: Mapping): seq<OsCall>
  {
    if openResult == -1 then [OpenMem]
    else if mapResult == MapFailed then [OpenMem, MapBridge(openResult), Close(openResult)]
    else [OpenMem, MapBridge(openResult)]
  }

  /** configure_fpga returns 0 exactly when open and mmap both succeed; then
      the input register sits at base + 0x50000 and the output register at
      base + 0x40000, both inside the mapped span. On failure the register
      pointers are left as they were, a failed open leaves fd at -1, and a
      failed mmap closes fd without resetting it and leaves MAP_FAILED in
      lw_bridge_base. */
  lemma ConfigureOutcome(s: DriverState, openResult: int, mapResult: Mapping)
    requires mapResult != Null
    ensures var s' := ConfigureState(s, openResult, mapResult);
      && (ConfigureStatus(openResult, mapResult) == 0 <==> openResult != -1 && mapResult.Mapped?)
      && (ConfigureStatus(openResult, mapResult) == 0 ==>
            && s'.fd == openResult && s'.lwBridgeBase == mapResult && Configured(s')
            && s'.pixelInPio.value == mapResult.address + PIXEL_IN_PIO_BASE
            && s'.pixelOutPio.value == mapResult.address + PIXEL_OUT_PIO_BASE
            && s'.pixelInPio.value + PIXEL_IN_PIO_WIDTH <= mapResult.address + LW_BRIDGE_SPAN
            && s'.pixelOutPio.value + PIXEL_OUT_PIO_WIDTH <= mapResult.address + LW_BRIDGE_SPAN)
      && (ConfigureStatus(openResult, mapResult) != 0 ==>
            && s'.pixelInPio == s.pixelInPio && s'.pixelOutPio == s.pixelOutPio
            && s'.inputRegister == s.inputRegister)
      && (openResult == -1 ==> s'.fd == -1 && s'.lwBridgeBase == s.lwBridgeBase)
      && (openResult != -1 && mapResult == MapFailed ==>
            s'.fd == openResult && s'.lwBridgeBase == MapFailed
            && Close(openResult) in ConfigureCalls(openResult, mapResult))
  {
    RegistersInsideBridge();
  }

  // ---------------------------------------------------------------------
  // write_to_fpga, read_from_fpga

  function WriteState(s: DriverState, data: Dword): DriverState
  {
    if s.pixelInPio.Some? then s.(inputRegister := data) else s
  }

  /** The words the accelerator has received after write_to_fpga(data):
      only a write through a set pixel_in_pio reaches it. */
  function Received(s: DriverState, history: seq<Dword>, data: Dword): seq<Dword>
  {
    if s.pixelInPio.Some? then history + [data] else history
  }

  /** What read_from_fpga returns once the accelerator has received `history`. */
  function ReadValue(s: DriverState, accelerator: seq<Dword> -> byte, history: seq<Dword>): byte
  {
    if s.pixelOutPio.Some? then accelerator(history) else 0
  }

  /** write_to_fpga stores the word if and only if pixel_in_pio is set, and
      touches nothing else; read_from_fpga yields 0 while pixel_out_pio is
      NULL. With both set, a read right after a write returns the
      accelerator's answer to everything it has received, that word last. */
  lemma WriteReadGuards(s: DriverState, data: Dword, history: seq<Dword>, accelerator: seq<Dword> -> byte)
    ensures WriteState(s, data).inputRegister == data <==> s.pixelInPio.Some? || s.inputRegister == data
    ensures WriteState(s, data) == s.(inputRegister := WriteState(s, data).inputRegister)
    ensures s.pixelInPio.None? ==> WriteState(s, data) == s && Received(s, history, data) == history
    ensures s.pixelInPio.Some? ==> Received(s, history, data) == history + [data]
    ensures s.pixelOutPio.None? ==> ReadValue(s, accelerator, history) == 0
    ensures Configured(s) ==>
      ReadValue(WriteState(s, data), accelerator, Received(s, history, data)) == accelerator(history + [data])
  {
  }

  // ---------------------------------------------------------------------
  // cleanup_fpga

  function CleanupState(s: DriverState): DriverState
  {
    var s1 := if s.lwBridgeBase != Null then s.(lwBridgeBase := Null) else s;
    if s1.fd != -1 then s1.(fd := -1) else s1
  }

  function CleanupCalls(s: DriverState): seq<OsCall>
  {
    (if s.lwBridgeBase != Null then [Unmap(s.lwBridgeBase)] else [])
      + (if s.fd != -1 then [Close(s.fd)] else [])
  }

  /** cleanup_fpga leaves lw_bridge_base NULL and fd at -1; a second call
      makes no system call and changes nothing. MAP_FAILED is not NULL, so a
      failed mapping is passed to munmap. */
  lemma CleanupIdempotent(s: DriverState)
    ensures CleanupState(s).lwBridgeBase == Null && CleanupState(s).fd == -1
    ensures CleanupState(CleanupState(s)) == CleanupState(s)
    ensures CleanupCalls(CleanupState(s)) == []
    ensures s.lwBridgeBase == MapFailed ==> Unmap(MapFailed) in CleanupCalls(s)
  {
  }

  /** cleanup_fpga does not clear the register pointers: after it, the
      guards of write_to_fpga and read_from_fpga still pass. */
  lemma CleanupKeepsRegisters(s: DriverState, data: Dword, history: seq<Dword>, accelerator: seq<Dword> -> byte)
    ensures CleanupState(s).pixelInPio == s.pixelInPio && CleanupState(s).pixelOutPio == s.pixelOutPio
    ensures Configured(s) ==> Configured(CleanupState(s))
    ensures Configured(s) ==>
      var s' := CleanupState(s);
      ReadValue(WriteState(s', data), accelerator, Received(s', history, data)) == accelerator(history + [data])
  {
  }

  // ---------------------------------------------------------------------
  // The globals as an object

  class FpgaBridge {
    var fd: int
    var lwBridgeBase: Mapping
    var pixelInPio: Option<nat>
    var pixelOutPio: Option<nat>
    var inputRegister: Dword
    /** Every word the accelerator has received, in order. */
    var received: seq<Dword>
    /** Every register access, in order. */
    ghost var accesses: seq<Access>
    /** Every system call, in order. */
    ghost var osCalls: seq<OsCall>
    const accelerator: seq<Dword> -> byte

    function State(): DriverState
      reads this
    {
      DriverState(fd, lwBridgeBase, pixelInPio, pixelOutPio, inputRegister)
    }

    /** The globals' initial values; `powerOn` is whatever the input register holds. */
    constructor (accelerator: seq<Dword> -> byte, powerOn: Dword)
      ensures State() == DriverState(-1, Null, None, None, powerOn)
      ensures this.accelerator == accelerator && received == [] && accesses == [] && osCalls == []
    {
      fd := -1;
      lwBridgeBase := Null;
      pixelInPio := None;
      pixelOutPio := None;
      inputRegister := powerOn;
      this.accelerator := accelerator;
      received := [];
      accesses := [];
      osCalls := [];
    }

    method ConfigureFpga(openResult: int, mapResult: Mapping) returns (status: int)
      requires openResult >= -1 && mapResult != Null
      modifies this
      ensures State() == ConfigureState(old(State()), openResult, mapResult)
      ensures status == ConfigureStatus(openResult, mapResult)
      ensures osCalls == old(osCalls) + ConfigureCalls(openResult, mapResult)
      ensures accesses == old(accesses) && received == old(received)
    {
      fd := openResult;
      osCalls := osCalls + [OpenMem];
      if fd == -1 {
        return -1;
      }
      lwBridgeBase := mapResult;
      osCalls := osCalls + [MapBridge(fd)];
      if lwBridgeBase == MapFailed {
        osCalls := osCalls + [Close(fd)];
        return -1;
      }
      pixelInPio := Some(lwBridgeBase.address + PIXEL_IN_PIO_BASE);
      pixelOutPio := Some(lwBridgeBase.address + PIXEL_OUT_PIO_BASE);
      return 0;
    }

    method WriteToFpga(data: Dword)
      modifies this
      ensures State() == WriteState(old(State()), data)
      ensures received == Received(old(State()), old(received), data)
      ensures accesses == old(accesses) + (if pixelInPio.Some? then [Wrote(data)] else [])
      ensures osCalls == old(osCalls)
    {
      if pixelInPio.Some? {
        inputRegister := data;
        received := received + [data];
        accesses := accesses + [Wrote(data)];
      }
    }

    method ReadFromFpga() returns (value: byte)
      modifies this
      ensures value == ReadValue(State(), accelerator, received)
      ensures State() == old(State()) && received == old(received)
      ensures accesses == old(accesses) + (if pixelOutPio.Some? then [Read(value)] else [])
      ensures osCalls == old(osCalls)
    {
      if pixelOutPio.Some? {
        value := accelerator(received);
        accesses := accesses + [Read(value)];
      } else {
        value := 0;
      }
    }

    method CleanupFpga()
      modifies this
      ensures State() == CleanupState(old(State()))
      ensures osCalls == old(osCalls) + CleanupCalls(old(State()))
      ensures accesses == old(accesses) && received == old(received)
    {
      if lwBridgeBase != Null {
        osCalls := osCalls + [Unmap(lwBridgeBase)];
        lwBridgeBase := Null;
      }
      if fd != -1 {
        osCalls := osCalls + [Close(fd)];
        fd := -1;
      }
    }
  }
}
