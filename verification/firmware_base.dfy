/** The peripheral side of the bus (`ModuleBase`): the friend code, the
    address the bus interface listens on, the shared three-byte command
    buffer `i2c_buffer`, and the base commands every module answers. The
    module's own commands are forwarded to its handlers, which the knob and
    slider firmware define. */
module FirmwareBase {
  import opened Common
  import opened Protocol
  import opened TwiDevice

  /** `readUniqueSerial`: the ten serial-number bytes of the chip. */
  type Serial = s: seq<byte> | |s| == SerialLen witness [0, 0, 0, 0, 0, 0, 0, 0, 0, 0]

  /** `i2c_buffer`: always exactly `TWI_BUFFER_SIZE` bytes. */
  type Buffer = s: seq<byte> | |s| == TwiBufferSize witness [0, 0, 0]

  /** What `ModuleBase` keeps: the friend code, the listening address
      (`None` before `begin`), the command buffer, and whether a module
      instance is registered for the bus callbacks. */
  datatype Base = Base(code: seq<byte>, addr: Option<byte>, buffer: Buffer, hasInstance: bool)

  /** The constructor: the friend code is the module type followed by the
      serial; the global buffer starts zeroed. */
  function NewBase(moduleType: byte, serial: Serial): (b: Base)
    ensures |b.code| == FriendCodeLen && b.code[0] == moduleType && b.code[1..] == serial
    ensures b.addr.None? && b.buffer == [0, 0, 0] && b.hasInstance
  {
    Base([moduleType] + serial, None, [0, 0, 0], true)
  }

  /** A transfer addressed to `target` reaches this peripheral. */
  predicate Acks(b: Base, target: byte) {
    b.addr == Some(target)
  }

  /** `begin(address)`: the bus interface listens on `address`, and from
      then on the peripheral answers transfers to that address and no
      other. */
  function Begin(b: Base, address: byte): (r: Base)
    ensures forall t :: Acks(r, t) <==> t == address
    ensures r.addr == Some(address)
    ensures r.code == b.code && r.buffer == b.buffer && r.hasInstance == b.hasInstance
  {
    b.(addr := Some(address))
  }

  /** `begin()`: the default address 0x03. */
  function BeginDefault(b: Base): (r: Base)
    ensures r.addr == Some(DefaultAddr) && r.code == b.code && r.buffer == b.buffer
  {
    Begin(b, 0x03)
  }

  // ---------------------------------------------------------------------
  // Master writes

  /** The loop of `handleTWIReceive`: the buffer is zeroed, then takes the
      first bytes written, as many as fit. */
  function Load(data: seq<byte>): (buf: Buffer)
  {
    seq(TwiBufferSize, i requires 0 <= i < TwiBufferSize => if i < |data| then data[i] else 0)
  }

  /** A frame that fits is kept whole, followed by zeros; bytes beyond the
      buffer are dropped, and an empty write leaves the buffer zeroed. */
  lemma LoadKeepsFrame(data: seq<byte>)
    ensures |data| <= TwiBufferSize ==> Load(data)[..|data|] == data
    ensures |data| <= TwiBufferSize ==> forall i :: |data| <= i < TwiBufferSize ==> Load(data)[i] == 0
    ensures |data| > TwiBufferSize ==> Load(data) == data[..TwiBufferSize]
    ensures Load([]) == [0, 0, 0]
  {
  }

  /** The effect of a master write: the base afterwards, and whether the
      module's own `onReceive` is called. */
  datatype Received = Received(base: Base, forward: bool)

  /** `redirectOnReceive` and `handleTWIReceive` as written: a frame whose
      first byte is the base command is taken no further, every other frame
      goes to the module. Nothing happens without a registered instance. */
  function Receive(b: Base, data: seq<byte>): (r: Received)
    ensures !b.hasInstance ==> r == Received(b, false)
    ensures b.hasInstance ==> r.base.buffer == Load(data) && (r.forward <==> Load(data)[0] != BaseCmd)
    ensures r.base.addr == b.addr && r.base.code == b.code && r.base.hasInstance == b.hasInstance
  {
    if !b.hasInstance then Received(b, false)
    else
      var buf := Load(data);
      Received(b.(buffer := buf), buf[0] != BaseCmd)
  }

  /** The receive handler doing the address swap itself: a base frame whose
      sub-command is the swap rebinds the bus interface to the frame's
      third byte as soon as it is written. */
  function ReceiveSwapping(b: Base, data: seq<byte>): (r: Received)
    ensures r.forward == Receive(b, data).forward && r.base.buffer == Receive(b, data).base.buffer
    ensures b.hasInstance && Load(data)[0] == BaseCmd && Load(data)[1] == BaseSwapAddress ==>
      r.base.addr == Some(Load(data)[2])
    ensures !(b.hasInstance && Load(data)[0] == BaseCmd && Load(data)[1] == BaseSwapAddress) ==>
      r == Receive(b, data)
  {
    var r := Receive(b, data);
    if b.hasInstance && r.base.buffer[0] == BaseCmd && r.base.buffer[1] == BaseSwapAddress then
      r.(base := r.base.(addr := Some(r.base.buffer[2])))
    else r
  }

  // ---------------------------------------------------------------------
  // Master reads

  /** What a master read gets from the base: nothing, bytes, or a hand-over
      to the module's own `onRequest`. */
  datatype Answer = Silent | Wrote(bytes: seq<byte>) | Forward

  datatype Requested = Requested(base: Base, answer: Answer)

  /** `redirectOnRequest` and `handleTWIRequest`: on a base frame the
      friend-code sub-command writes the friend code, the swap sub-command
      rebinds the bus interface to the buffer's third byte and writes
      nothing, any other sub-command does nothing; every other frame goes
      to the module. */
  function Request(b: Base): (r: Requested)
    ensures !b.hasInstance ==> r == Requested(b, Silent)
    ensures r.base.code == b.code && r.base.buffer == b.buffer && r.base.hasInstance == b.hasInstance
    ensures b.hasInstance && b.buffer[0] != BaseCmd ==> r == Requested(b, Forward)
    ensures b.hasInstance && b.buffer[0] == BaseCmd ==>
      && (r.answer == Wrote(b.code) <==> b.buffer[1] == BaseFriendCode)
      && (r.answer == Silent <==> b.buffer[1] != BaseFriendCode)
      && (r.base.addr == if b.buffer[1] == BaseSwapAddress then Some(b.buffer[2]) else b.addr)
  {
    if !b.hasInstance then Requested(b, Silent)
    else if b.buffer[0] != BaseCmd then Requested(b, Forward)
    else if b.buffer[1] == BaseFriendCode then Requested(b, Wrote(b.code))
    else if b.buffer[1] == BaseSwapAddress then Requested(b.(addr := Some(b.buffer[2])), Silent)
    else Requested(b, Silent)
  }

  // ---------------------------------------------------------------------
  // Exchanges with the host

  /** The host's identity exchange: the friend-code frame written, then the
      eleven-byte read. The host builds from the reply the device whose type
      id and serial are the module's. */
  lemma FriendCodeExchange(moduleType: byte, serial: Serial, addr: byte, channel: int)
    ensures var b := Begin(NewBase(moduleType, serial), addr);
      var r := Request(Receive(b, FriendCodeFrame()).base);
      && !Receive(b, FriendCodeFrame()).forward
      && r.answer == Wrote([moduleType] + serial)
      && FromRaw(addr, channel, Some(r.answer.bytes)) == Some(Device(addr, channel, moduleType, serial))
  {
    var b := Begin(NewBase(moduleType, serial), addr);
    assert Load(FriendCodeFrame()) == [0, 1, 0];
    var code := [moduleType] + serial;
    assert code[1..] == serial;
  }

  /** The host's promotion of a fresh peripheral: the swap frame written to
      the default address, then an empty write to the new address to see
      whether it answers there. Returns whether that ping was acknowledged,
      and the peripheral afterwards. `swapOnReceive` selects the receive
      handler that performs the swap. */
  function Promote(b: Base, newAddr: byte, swapOnReceive: bool): (r: (bool, Base))
    ensures r.0 <==> r.1.addr == Some(newAddr)
  {
    var b1 :=
      if !Acks(b, DefaultAddr) then b
      else if swapOnReceive then ReceiveSwapping(b, SwapAddressFrame(newAddr)).base
      else Receive(b, SwapAddressFrame(newAddr)).base;
    if !Acks(b1, newAddr) then (false, b1)
    else if swapOnReceive then (true, ReceiveSwapping(b1, []).base)
    else (true, Receive(b1, []).base)
  }

  /** As written, a peripheral listening on the default address never
      answers at the new address: the write handler does not act on the
      swap frame, and the host never issues the read that would. */
  lemma PromotionNeverAnswers(b: Base, newAddr: byte)
    requires Acks(b, DefaultAddr) && newAddr != DefaultAddr
    ensures !Promote(b, newAddr, false).0
    ensures Promote(b, newAddr, false).1.addr == Some(DefaultAddr)
    ensures b.hasInstance ==> Promote(b, newAddr, false).1.buffer == SwapAddressFrame(newAddr)
  {
    assert Load(SwapAddressFrame(newAddr)) == SwapAddressFrame(newAddr);
  }

  /** With the swap done on receive, a registered peripheral answers at the
      new address right after the frame, and keeps its friend code. */
  lemma PromotionAnswers(b: Base, newAddr: byte)
    requires Acks(b, DefaultAddr) && b.hasInstance
    ensures Promote(b, newAddr, true).0
    ensures Promote(b, newAddr, true).1.addr == Some(newAddr)
    ensures Promote(b, newAddr, true).1.code == b.code
  {
    assert Load(SwapAddressFrame(newAddr)) == SwapAddressFrame(newAddr);
    assert Load([])[0] == BaseCmd && Load([])[1] != BaseSwapAddress;
  }

  /** Only a read after the swap frame would move the peripheral as
      written: the request handler does the swap. */
  lemma SwapNeedsRead(b: Base, newAddr: byte)
    requires b.hasInstance
    ensures Request(Receive(b, SwapAddressFrame(newAddr)).base).base.addr == Some(newAddr)
    ensures Request(Receive(b, SwapAddressFrame(newAddr)).base).answer == Silent
  {
    assert Load(SwapAddressFrame(newAddr)) == SwapAddressFrame(newAddr);
  }
}
