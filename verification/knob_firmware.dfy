/** The knob peripheral's firmware: three rotary encoders with push
    buttons, the change struct it accumulates between reads, and its
    answers to the knob commands. Encoder decoding and keypad scanning are
    the libraries' business: each pass of the main loop receives the
    keypad events and the encoder positions they report. */
module KnobFirmware {
  import opened Common
  import opened Protocol
  import opened Reports
  import opened FirmwareBase

  /** `NUM_ENCODERS`. */
  const NumEncoders: nat := 3

  type Deltas = s: seq<int8> | |s| == NumEncoders witness [0, 0, 0]
  type Flags = s: seq<byte> | |s| == NumEncoders witness [0, 0, 0]
  type Positions = s: seq<int> | |s| == NumEncoders witness [0, 0, 0]

  /** The peripheral: its base, the pending `changes`, and
      `encoder_positions`, the positions last folded into them. */
  datatype Knobs = Knobs(base: Base, delta: Deltas, pressed: Flags, released: Flags, positions: Positions)

  /** The change struct as the host reads it. */
  function Changes(k: Knobs): (c: KnobChanges)
    ensures KnobShaped(c, NumEncoders)
  {
    KnobChanges(k.delta, k.pressed, k.released)
  }

  /** The firmware after `setup`: listening on the default address, no
      changes pending, every encoder at position 0. */
  function Boot(serial: Serial): (k: Knobs)
    ensures k.base.addr == Some(DefaultAddr) && |k.base.code| == FriendCodeLen && k.base.code[0] == ModKnobs
    ensures Changes(k) == KnobChanges([0, 0, 0], [0, 0, 0], [0, 0, 0]) && k.positions == [0, 0, 0]
  {
    Knobs(BeginDefault(NewBase(ModKnobs, serial)), [0, 0, 0], [0, 0, 0], [0, 0, 0], [0, 0, 0])
  }

  // ---------------------------------------------------------------------
  // The main loop

  /** A keypad event: the key's character and whether it was just pressed,
      just released, or neither. */
  datatype Edge = JustPressed | JustReleased | NoEdge
  datatype KeyEvent = KeyEvent(key: byte, edge: Edge)

  /** `uint8_t encoder_idx = key - '0'`: the difference wraps modulo 256. */
  function KeyIndex(key: byte): byte {
    (key - '0' as int) % 256
  }

  /** Only the characters '0', '1' and '2' name an encoder, and each names
      its own. */
  lemma KeyIndexOnlyDigits(key: byte)
    ensures KeyIndex(key) < NumEncoders <==> '0' as int <= key <= '2' as int
    ensures KeyIndex(key) < NumEncoders ==> KeyIndex(key) == key - '0' as int
  {
  }

  /** One keypad event: an edge on an encoder's button sets its flag. */
  function ApplyKey(k: Knobs, e: KeyEvent): (r: Knobs)
    ensures r.base == k.base && r.delta == k.delta && r.positions == k.positions
    ensures KeyIndex(e.key) >= NumEncoders || e.edge == NoEdge ==> r == k
  {
    var i := KeyIndex(e.key);
    if i >= NumEncoders then k
    else match e.edge
      case JustPressed => k.(pressed := k.pressed[i := 1])
      case JustReleased => k.(released := k.released[i := 1])
      case NoEdge => k
  }

  /** The `while (customKeypad.available())` loop. */
  function ApplyKeys(k: Knobs, es: seq<KeyEvent>): (r: Knobs)
    ensures r.base == k.base && r.delta == k.delta && r.positions == k.positions
    decreases |es|
  {
    if es == [] then k else ApplyKeys(ApplyKey(k, es[0]), es[1..])
  }

  /** A button flag, once set, stays set until the host reads or clears the
      changes; a button with an edge among the events ends up flagged. */
  lemma {:induction false} FlagsStick(k: Knobs, es: seq<KeyEvent>, j: nat)
    requires j < NumEncoders
    ensures k.pressed[j] == 1 ==> ApplyKeys(k, es).pressed[j] == 1
    ensures k.released[j] == 1 ==> ApplyKeys(k, es).released[j] == 1
    ensures (exists e :: e in es && KeyIndex(e.key) == j && e.edge == JustPressed) ==> ApplyKeys(k, es).pressed[j] == 1
    ensures (exists e :: e in es && KeyIndex(e.key) == j && e.edge == JustReleased) ==> ApplyKeys(k, es).released[j] == 1
    decreases |es|
  {
    if es != [] {
      var k1 := ApplyKey(k, es[0]);
      FlagsStick(k1, es[1..], j);
      forall e | e in es && KeyIndex(e.key) == j && e.edge != NoEdge && e !in es[1..]
        ensures e == es[0]
      {
      }
    }
  }

  /** `int delta = new_pos - encoder_positions[i]`: the difference of two
      `long`s stored in the 16-bit `int` of the AVR core, wrapping. */
  function Int16(x: int): (r: int)
    ensures -0x8000 <= r < 0x8000
    ensures -0x8000 <= x < 0x8000 ==> r == x
    ensures (r - x) % 0x1_0000 == 0
  {
    (x + 0x8000) % 0x1_0000 - 0x8000
  }

  /** Arduino's `constrain(x, -128, 127)`: the point of -128..127 nearest
      to `x`. */
  function Constrain(x: int): (r: int8)
    ensures -128 <= x <= 127 ==> r == x
    ensures forall y :: -128 <= y <= 127 ==> Dist(x, r) <= Dist(x, y)
  {
    if x < -128 then -128 else if x > 127 then 127 else x
  }

  /** One encoder in one pass: `changes.rotation_delta[i] + delta`, an
      addition in the 16-bit `int`, wrapping, then constrained to the
      `int8_t` bounds. The new position is stored. */
  function Track(acc: int8, pos: int, newPos: int): (r: (int8, int))
    ensures r.1 == newPos
    ensures var sum := Int16(acc + Int16(newPos - pos));
      forall y :: -128 <= y <= 127 ==> Dist(sum, r.0) <= Dist(sum, y)
    ensures -128 <= acc + Int16(newPos - pos) <= 127 ==> r.0 == acc + Int16(newPos - pos)
  {
    (Constrain(Int16(acc + Int16(newPos - pos))), newPos)
  }

  /** The 16-bit addition can wrap before `constrain` sees it: a pending
      delta of 127 plus a movement of 32767 steps becomes -128, not 127. */
  lemma TrackSumWraps()
    ensures Track(127, 0, 32767).0 == -128
  {
    assert Int16(127 + 32767) == -32642;
  }

  /** `loop()`: the keypad events first, then each encoder's movement. */
  function Loop(k: Knobs, es: seq<KeyEvent>, newPos: Positions): (r: Knobs)
    ensures r.base == k.base && r.positions == newPos
    ensures r.pressed == ApplyKeys(k, es).pressed && r.released == ApplyKeys(k, es).released
    ensures forall i :: 0 <= i < NumEncoders ==> r.delta[i] == Track(k.delta[i], k.positions[i], newPos[i]).0
  {
    var k1 := ApplyKeys(k, es);
    k1.(delta := [Track(k.delta[0], k.positions[0], newPos[0]).0,
                  Track(k.delta[1], k.positions[1], newPos[1]).0,
                  Track(k.delta[2], k.positions[2], newPos[2]).0],
        positions := newPos)
  }

  /** One encoder over several passes that report `readings`. */
  function TrackAll(acc: int8, pos: int, readings: seq<int>): (r: (int8, int))
    decreases |readings|
  {
    if readings == [] then (acc, pos)
    else
      var t := Track(acc, pos, readings[0]);
      TrackAll(t.0, t.1, readings[1..])
  }

  /** Within the saturation bounds, the pending delta telescopes: after any
      number of passes it is the movement from the last folded position to
      the latest reading, so no tick is lost between two reads of the host. */
  lemma {:induction false} TrackTelescopes(acc: int8, pos: int, readings: seq<int>)
    requires readings != []
    requires forall i :: 0 <= i < |readings| ==>
      -0x8000 <= readings[i] - (if i == 0 then pos else readings[i - 1]) < 0x8000
    requires forall i :: 0 <= i < |readings| ==> -128 <= acc + readings[i] - pos <= 127
    ensures TrackAll(acc, pos, readings) == (acc + readings[|readings| - 1] - pos, readings[|readings| - 1])
    decreases |readings|
  {
    var t := Track(acc, pos, readings[0]);
    assert t == (acc + readings[0] - pos, readings[0]);
    if |readings| > 1 {
      var rest := readings[1..];
      forall i | 0 <= i < |rest|
        ensures -0x8000 <= rest[i] - (if i == 0 then t.1 else rest[i - 1]) < 0x8000
        ensures -128 <= t.0 + rest[i] - t.1 <= 127
      {
        assert rest[i] == readings[i + 1];
        assert -0x8000 <= readings[i + 1] - readings[i] < 0x8000;
      }
      TrackTelescopes(t.0, t.1, rest);
      assert rest[|rest| - 1] == readings[|readings| - 1];
    }
  }

  // ---------------------------------------------------------------------
  // Bus handlers

  /** What a master read receives from the peripheral: bytes, or `n` bytes
      of whatever memory holds at some address. */
  datatype Reply = Bytes(data: seq<byte>) | Unknown(n: nat)

  /** Every pending change zeroed (`memset(&changes, 0, ...)`). */
  function Cleared(k: Knobs): (r: Knobs)
    ensures Changes(r) == KnobChanges([0, 0, 0], [0, 0, 0], [0, 0, 0])
    ensures r.base == k.base && r.positions == k.positions
  {
    k.(delta := [0, 0, 0], pressed := [0, 0, 0], released := [0, 0, 0])
  }

  /** `ModuleBase::onReceive`: a knob clear-changes frame zeroes the
      changes; anything else is ignored. A write never touches the base or
      the positions, and it leaves the changes either as they were or all
      zero. */
  function OnReceive(k: Knobs): (r: Knobs)
    ensures r.base == k.base && r.positions == k.positions
    ensures Changes(r) == Changes(k) || Changes(r) == KnobChanges([0, 0, 0], [0, 0, 0], [0, 0, 0])
    ensures k.base.buffer[0] == KnobsCmd && k.base.buffer[1] == KnobsClearChanges ==> r == Cleared(k)
    ensures !(k.base.buffer[0] == KnobsCmd && k.base.buffer[1] == KnobsClearChanges) ==> r == k
  {
    if k.base.buffer[0] == KnobsCmd && k.base.buffer[1] == KnobsClearChanges then Cleared(k) else k
  }

  /** `ModuleBase::onRequest`: a knob get-changes frame writes the change
      struct and then zeroes it; a knob encoder-number frame writes one
      byte. As written that byte is read from memory address 3
      (`(uint8_t *)NUM_ENCODERS`); `fixedCount` writes the count itself. */
  function OnRequest(k: Knobs, fixedCount: bool): (r: (Knobs, Reply))
    ensures k.base.buffer[0] == KnobsCmd && k.base.buffer[1] == KnobsGetChanges ==>
      r == (Cleared(k), Bytes(EncodeKnob(Changes(k))))
    ensures k.base.buffer[0] == KnobsCmd && k.base.buffer[1] == KnobsGetEncoderNumber ==>
      r == (k, if fixedCount then Bytes([NumEncoders]) else Unknown(1))
    ensures k.base.buffer[0] != KnobsCmd || k.base.buffer[1] !in {KnobsGetChanges, KnobsGetEncoderNumber} ==>
      r == (k, Bytes([]))
  {
    if k.base.buffer[0] != KnobsCmd then (k, Bytes([]))
    else if k.base.buffer[1] == KnobsGetChanges then (Cleared(k), Bytes(EncodeKnob(Changes(k))))
    else if k.base.buffer[1] == KnobsGetEncoderNumber then (k, if fixedCount then Bytes([NumEncoders]) else Unknown(1))
    else (k, Bytes([]))
  }

  /** A master write addressed to this peripheral. */
  function Write(k: Knobs, data: seq<byte>): (r: Knobs)
    ensures r.base.buffer == (if k.base.hasInstance then Load(data) else k.base.buffer)
    ensures r.base.addr == k.base.addr && r.positions == k.positions
  {
    var rc := Receive(k.base, data);
    var k1 := k.(base := rc.base);
    if rc.forward then OnReceive(k1) else k1
  }

  /** A master read addressed to this peripheral. */
  function Read(k: Knobs, fixedCount: bool): (r: (Knobs, Reply))
    ensures r.0.base.buffer == k.base.buffer && r.0.positions == k.positions
  {
    var rq := Request(k.base);
    var k1 := k.(base := rq.base);
    match rq.answer
    case Silent => (k1, Bytes([]))
    case Wrote(bs) => (k1, Bytes(bs))
    case Forward => OnRequest(k1, fixedCount)
  }

  // ---------------------------------------------------------------------
  // Exchanges with the host

  /** The get-changes exchange: the host reads back exactly the pending
      changes, and the peripheral starts over from zero, so a second read
      without a pass of the loop in between reports nothing. */
  lemma GetChangesExchange(k: Knobs, fixedCount: bool)
    requires k.base.hasInstance
    ensures var r := Read(Write(k, [KnobsCmd, KnobsGetChanges]), fixedCount);
      && DecodeKnob(r.1.data, NumEncoders) == Some(Changes(k))
      && Changes(r.0) == KnobChanges([0, 0, 0], [0, 0, 0], [0, 0, 0])
      && Read(r.0, fixedCount).1 == Bytes(EncodeKnob(KnobChanges([0, 0, 0], [0, 0, 0], [0, 0, 0])))
  {
    var k1 := Write(k, [KnobsCmd, KnobsGetChanges]);
    assert k1.base.buffer == [1, 1, 0];
    KnobRoundTrip(Changes(k), NumEncoders);
  }

  /** The clear-changes frame zeroes the pending changes and keeps the
      positions, so movement already folded in is forgotten. */
  lemma ClearExchange(k: Knobs)
    requires k.base.hasInstance
    ensures Changes(Write(k, [KnobsCmd, KnobsClearChanges])) == KnobChanges([0, 0, 0], [0, 0, 0], [0, 0, 0])
    ensures Write(k, [KnobsCmd, KnobsClearChanges]).positions == k.positions
  {
    assert Load([KnobsCmd, KnobsClearChanges]) == [1, 2, 0];
  }

  /** The host driver's count query `[0x02, 0x03]` carries the slider
      command byte: the knob firmware ignores it, and the read that follows
      gets no bytes at all. */
  lemma CountFrameUnanswered(k: Knobs, fixedCount: bool)
    requires k.base.hasInstance
    ensures Write(k, CountRequestFrame()) == k.(base := k.base.(buffer := [SlidersCmd, 3, 0]))
    ensures Read(Write(k, CountRequestFrame()), fixedCount).1 == Bytes([])
  {
    assert Load(CountRequestFrame()) == [2, 3, 0];
  }

  /** With the knob command byte the count query is taken up; the firmware
      then writes one byte, from memory address 3 as written and the
      encoder count with the count written itself. */
  lemma CountQueryAnswered(k: Knobs)
    requires k.base.hasInstance
    ensures Read(Write(k, [KnobsCmd, KnobsGetEncoderNumber]), false).1 == Unknown(1)
    ensures Read(Write(k, [KnobsCmd, KnobsGetEncoderNumber]), true).1 == Bytes([NumEncoders])
  {
    assert Load([KnobsCmd, KnobsGetEncoderNumber]) == [1, 3, 0];
  }

  /** The host driver reads the report without first writing the
      get-changes frame: after its count query the buffer still holds that
      frame, the firmware writes nothing, and the changes stay pending. */
  lemma ReportReadUnanswered(k: Knobs, fixedCount: bool)
    requires k.base.hasInstance
    ensures var k1 := Write(k, CountRequestFrame());
      Read(k1, fixedCount) == (k1, Bytes([]))
  {
    assert Load(CountRequestFrame()) == [2, 3, 0];
  }
}
