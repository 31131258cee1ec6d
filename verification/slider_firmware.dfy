/** The slider peripheral's firmware: two potentiometer sliders sampled by
    the ADC, the change struct it keeps between reads, and its answers to
    the slider commands. Each pass of the main loop receives the two
    `analogRead` samples. */
module SliderFirmware {
  import opened Common
  import opened Protocol
  import opened Reports
  import opened Deadband
  import opened FirmwareBase
  import KnobFirmware

  /** `NUM_SLIDERS`. */
  const NumSliders: nat := 2

  /** The firmware's own threshold: a sample must differ from the level
      last flagged by more than this. */
  const Threshold: nat := 3

  /** A ten-bit ADC sample. */
  type Sample = x: int | 0 <= x < 1024

  type Levels = s: seq<u16> | |s| == NumSliders witness [0, 0]
  type Flags = s: seq<byte> | |s| == NumSliders witness [0, 0]
  type Samples = s: seq<Sample> | |s| == NumSliders witness [0, 0]

  /** The peripheral: its base, the pending `changes`, and `slider_last`,
      the level last flagged per slider. */
  datatype Sliders = Sliders(base: Base, value: Levels, changed: Flags, last: Levels)

  /** The change struct as the host reads it. */
  function Changes(s: Sliders): (c: SliderChanges)
    ensures SliderShaped(c, NumSliders)
  {
    SliderChanges(s.value, s.changed)
  }

  /** The firmware after `setup`: listening on the default address, nothing
      pending, both last levels 0. */
  function Boot(serial: Serial): (s: Sliders)
    ensures s.base.addr == Some(DefaultAddr) && |s.base.code| == FriendCodeLen && s.base.code[0] == ModSliders
    ensures Changes(s) == SliderChanges([0, 0], [0, 0]) && s.last == [0, 0]
  {
    Sliders(BeginDefault(NewBase(ModSliders, serial)), [0, 0], [0, 0], [0, 0])
  }

  // ---------------------------------------------------------------------
  // The main loop

  /** One slider in one pass: a sample beyond the threshold of the level
      last flagged becomes the pending level, is flagged, and becomes the
      new last level. */
  function SampleOne(s: Sliders, i: nat, v: Sample): (r: Sliders)
    requires i < NumSliders
    ensures r.base == s.base
    ensures Dist(r.last[i], v) <= Threshold
    ensures forall j :: 0 <= j < NumSliders && j != i ==>
      r.value[j] == s.value[j] && r.changed[j] == s.changed[j] && r.last[j] == s.last[j]
    ensures Gate(s.last[i], v, Threshold).accepted ==>
      r.value == s.value[i := v] && r.changed == s.changed[i := 1] && r.last == s.last[i := v]
    ensures !Gate(s.last[i], v, Threshold).accepted ==> r == s
  {
    if Gate(s.last[i], v, Threshold).accepted then
      s.(value := s.value[i := v], changed := s.changed[i := 1], last := s.last[i := v])
    else s
  }

  /** `loop()`: both sliders in turn. */
  function Loop(s: Sliders, vs: Samples): (r: Sliders)
    ensures r.base == s.base
    ensures forall i :: 0 <= i < NumSliders ==> r.last[i] == Gate(s.last[i], vs[i], Threshold).last
    ensures forall i :: 0 <= i < NumSliders ==>
      (Gate(s.last[i], vs[i], Threshold).accepted ==> r.value[i] == vs[i] && r.changed[i] == 1) &&
      (!Gate(s.last[i], vs[i], Threshold).accepted ==> r.value[i] == s.value[i] && r.changed[i] == s.changed[i])
  {
    SampleOne(SampleOne(s, 0, vs[0]), 1, vs[1])
  }

  /** Passes with the samples of `runs`. */
  function LoopAll(s: Sliders, runs: seq<Samples>): (r: Sliders)
    decreases |runs|
  {
    if runs == [] then s else LoopAll(Loop(s, runs[0]), runs[1..])
  }

  /** A slider whose samples all stay within the threshold of its last
      level is never flagged: noise on a resting slider sends nothing. */
  lemma {:induction false} NoiseIsQuiet(s: Sliders, runs: seq<Samples>, i: nat)
    requires i < NumSliders
    requires forall k :: 0 <= k < |runs| ==> Abs(s.last[i] - runs[k][i]) <= Threshold
    ensures LoopAll(s, runs).last[i] == s.last[i]
    ensures LoopAll(s, runs).value[i] == s.value[i] && LoopAll(s, runs).changed[i] == s.changed[i]
    decreases |runs|
  {
    if runs != [] {
      var s1 := Loop(s, runs[0]);
      assert s1.last[i] == s.last[i];
      forall k | 0 <= k < |runs[1..]|
        ensures Abs(s1.last[i] - runs[1..][k][i]) <= Threshold
      {
        assert runs[1..][k] == runs[k + 1];
      }
      NoiseIsQuiet(s1, runs[1..], i);
    }
  }

  // ---------------------------------------------------------------------
  // Bus handlers

  /** The pending levels and flags zeroed; the last levels are kept. */
  function Cleared(s: Sliders): (r: Sliders)
    ensures Changes(r) == SliderChanges([0, 0], [0, 0])
    ensures r.base == s.base && r.last == s.last
  {
    s.(value := [0, 0], changed := [0, 0])
  }

  /** `ModuleBase::onReceive`: a slider clear-changes frame zeroes the
      changes; anything else is ignored. A write never touches the base or
      the last levels, and it leaves the changes either as they were or
      all zero. */
  function OnReceive(s: Sliders): (r: Sliders)
    ensures r.base == s.base && r.last == s.last
    ensures Changes(r) == Changes(s) || Changes(r) == SliderChanges([0, 0], [0, 0])
    ensures s.base.buffer[0] == SlidersCmd && s.base.buffer[1] == SlidersClearChanges ==> r == Cleared(s)
    ensures !(s.base.buffer[0] == SlidersCmd && s.base.buffer[1] == SlidersClearChanges) ==> r == s
  {
    if s.base.buffer[0] == SlidersCmd && s.base.buffer[1] == SlidersClearChanges then Cleared(s) else s
  }

  /** `ModuleBase::onRequest`: a slider get-changes frame writes the change
      struct and then zeroes it; a slider-number frame writes one byte, read
      from memory address 2 as written (`(uint8_t *)NUM_SLIDERS`), or the
      count itself with `fixedCount`. */
  function OnRequest(s: Sliders, fixedCount: bool): (r: (Sliders, KnobFirmware.Reply))
    ensures s.base.buffer[0] == SlidersCmd && s.base.buffer[1] == SlidersGetChanges ==>
      r == (Cleared(s), KnobFirmware.Bytes(EncodeSlider(Changes(s))))
    ensures s.base.buffer[0] == SlidersCmd && s.base.buffer[1] == SlidersGetSliderNumber ==>
      r == (s, if fixedCount then KnobFirmware.Bytes([NumSliders]) else KnobFirmware.Unknown(1))
    ensures s.base.buffer[0] != SlidersCmd || s.base.buffer[1] !in {SlidersGetChanges, SlidersGetSliderNumber} ==>
      r == (s, KnobFirmware.Bytes([]))
  {
    if s.base.buffer[0] != SlidersCmd then (s, KnobFirmware.Bytes([]))
    else if s.base.buffer[1] == SlidersGetChanges then (Cleared(s), KnobFirmware.Bytes(EncodeSlider(Changes(s))))
    else if s.base.buffer[1] == SlidersGetSliderNumber then
      (s, if fixedCount then KnobFirmware.Bytes([NumSliders]) else KnobFirmware.Unknown(1))
    else (s, KnobFirmware.Bytes([]))
  }

  /** A master write addressed to this peripheral. */
  function Write(s: Sliders, data: seq<byte>): (r: Sliders)
    ensures r.base.buffer == (if s.base.hasInstance then Load(data) else s.base.buffer)
    ensures r.base.addr == s.base.addr && r.last == s.last
  {
    var rc := Receive(s.base, data);
    var s1 := s.(base := rc.base);
    if rc.forward then OnReceive(s1) else s1
  }

  /** A master read addressed to this peripheral. */
  function Read(s: Sliders, fixedCount: bool): (r: (Sliders, KnobFirmware.Reply))
    ensures r.0.base.buffer == s.base.buffer && r.0.last == s.last
  {
    var rq := Request(s.base);
    var s1 := s.(base := rq.base);
    match rq.answer
    case Silent => (s1, KnobFirmware.Bytes([]))
    case Wrote(bs) => (s1, KnobFirmware.Bytes(bs))
    case Forward => OnRequest(s1, fixedCount)
  }

  // ---------------------------------------------------------------------
  // Exchanges with the host

  /** The get-changes exchange: the host reads back exactly the pending
      changes; the peripheral zeroes the levels and flags but keeps its last
      levels. */
  lemma GetChangesExchange(s: Sliders, fixedCount: bool)
    requires s.base.hasInstance
    ensures var r := Read(Write(s, [SlidersCmd, SlidersGetChanges]), fixedCount);
      && r.1.Bytes? && DecodeSlider(r.1.data, NumSliders) == Some(Changes(s))
      && Changes(r.0) == SliderChanges([0, 0], [0, 0]) && r.0.last == s.last
  {
    var s1 := Write(s, [SlidersCmd, SlidersGetChanges]);
    assert s1.base.buffer == [2, 1, 0];
    SliderRoundTrip(Changes(s), NumSliders);
  }

  /** After a get-changes reply, a slider that stays within the threshold
      of its last level reports level 0 with its flag clear, whatever its
      position: the zeroed struct is what the next read returns. */
  lemma RestingReportsZero(s: Sliders, vs: Samples, fixedCount: bool)
    requires s.base.hasInstance
    requires forall i :: 0 <= i < NumSliders ==> Abs(s.last[i] - vs[i]) <= Threshold
    ensures var s1 := Read(Write(s, [SlidersCmd, SlidersGetChanges]), fixedCount).0;
      var s2 := Loop(s1, vs);
      var r := Read(s2, fixedCount);
      && r.1.Bytes? && DecodeSlider(r.1.data, NumSliders) == Some(SliderChanges([0, 0], [0, 0]))
  {
    var s0 := Write(s, [SlidersCmd, SlidersGetChanges]);
    assert s0.base.buffer == [2, 1, 0];
    var s1 := Read(s0, fixedCount).0;
    var s2 := Loop(s1, vs);
    assert Changes(s2) == SliderChanges([0, 0], [0, 0]);
    SliderRoundTrip(Changes(s2), NumSliders);
  }

  /** The clear-changes frame zeroes the pending changes and keeps the last
      levels, so a slider resting where it was last flagged stays unflagged. */
  lemma ClearExchange(s: Sliders)
    requires s.base.hasInstance
    ensures Changes(Write(s, [SlidersCmd, SlidersClearChanges])) == SliderChanges([0, 0], [0, 0])
    ensures Write(s, [SlidersCmd, SlidersClearChanges]).last == s.last
  {
    assert Load([SlidersCmd, SlidersClearChanges]) == [2, 2, 0];
  }

  /** The host driver's count query `[0x02, 0x03]` reaches the slider
      firmware, which then writes one byte from memory address 2 as
      written, and the slider count with the count written itself. */
  lemma CountQuery(s: Sliders)
    requires s.base.hasInstance
    ensures Read(Write(s, CountRequestFrame()), false).1 == KnobFirmware.Unknown(1)
    ensures Read(Write(s, CountRequestFrame()), true).1 == KnobFirmware.Bytes([NumSliders])
  {
    assert Load(CountRequestFrame()) == [2, 3, 0];
  }

  /** The host driver reads the report without first writing the
      get-changes frame: after its count query the firmware answers the
      report read with the count byte again, never with the changes. */
  lemma ReportReadGetsCount(s: Sliders, fixedCount: bool)
    requires s.base.hasInstance
    ensures var s1 := Write(s, CountRequestFrame());
      Read(s1, fixedCount).1 == (if fixedCount then KnobFirmware.Bytes([NumSliders]) else KnobFirmware.Unknown(1))
      && Changes(Read(s1, fixedCount).0) == Changes(s)
  {
    assert Load(CountRequestFrame()) == [2, 3, 0];
  }
}
