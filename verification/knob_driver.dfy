/** The host's knob driver (`KnobModule`): adopts knob peripherals, decodes
    their change reports and turns rotations and presses into key taps. The
    keyboard's `tap_key` is an output: the keys tapped, in order. */
module KnobDriver {
  import opened Common
  import opened TwiDevice
  import opened Reports
  import opened UnitRegistry
  import opened BaseModule

  /** Key bindings: per layer, per global encoder index, the keys for a
      counter-clockwise step, a clockwise step and a press. This is the
      shape the handlers index; Python's `map` is untyped, and the two-level
      map of Firmware/Macropad/main.py:86-90 is not of this shape. */
  type Keymap<K> = seq<seq<seq<K>>>

  /** The driver: its shell, its registry (each unit's state is the
      `KnobDevice`'s last decoded arrays) and its key bindings (`map`). */
  datatype KnobModule<K> = KnobModule(shell: Shell, reg: Registry<KnobChanges>, keymap: Option<Keymap<K>>)

  /** A driver as constructed: nothing adopted, no keyboard, no bindings. */
  function NewKnobModule<K>(): (m: KnobModule<K>)
    ensures m.shell.target == Knobs && m.shell.keyboard.None?
    ensures m.reg.units == [] && |m.reg.lookup| == 0 && m.reg.total == 0 && m.keymap.None?
  {
    KnobModule(NewShell(Knobs), EmptyRegistry(), None)
  }

  /** The arrays of a newly adopted knob device: all zero. */
  function ZeroChanges(n: nat): (c: KnobChanges)
    ensures KnobShaped(c, n)
    ensures forall i :: 0 <= i < n ==> c.delta[i] == 0 && c.pressed[i] == 0 && c.released[i] == 0
  {
    KnobChanges(Repeat(0, n), Repeat(0, n), Repeat(0, n))
  }

  /** `twiman_new_device_callback`. `count` is the reply to the encoder-count
      query, `None` when the query raises. Every raise happens before any
      update, so a failed adoption leaves the driver as it was. */
  function OnNew<K>(m: KnobModule<K>, d: Device, count: Option<byte>): (r: KnobModule<K>)
    ensures r.shell == m.shell && r.keymap == m.keymap
    ensures d.typeId != TypeId(Knobs) || |d.rawSerial| == 0 || count.None? ==> r == m
    ensures d.typeId == TypeId(Knobs) && |d.rawSerial| > 0 && count.Some? ==>
      && |r.reg.units| == |m.reg.units| + 1 && r.reg.units[..|m.reg.units|] == m.reg.units
      && SameDevice(r.reg.units[|m.reg.units|].dev, d)
      && RawCode(r.reg.units[|m.reg.units|].dev) == d.rawSerial
      && r.reg.units[|m.reg.units|].count == count.value
      && r.reg.units[|m.reg.units|].state == ZeroChanges(count.value)
      && r.reg.lookup == m.reg.lookup[FriendCode(d) := count.value]
      && r.reg.total == m.reg.total + count.value
  {
    if d.typeId != TypeId(Knobs) then m
    else match FromRaw(d.addr, d.channel, Some(d.rawSerial))
      case None => m
      case Some(kd) =>
        match count
        case None => m
        case Some(n) =>
          var r := m.(reg := Adopt(m.reg, FriendCode(d), Unit(kd, n, ZeroChanges(n))));
          assert r.reg.units[..|m.reg.units|] == m.reg.units;
          r
  }

  /** `twiman_removed_device_callback`: the shared removal bookkeeping. */
  function OnRemoved<K>(m: KnobModule<K>, d: Device): (r: KnobModule<K>)
    ensures r.shell == m.shell && r.keymap == m.keymap
    ensures !Holds(m.reg.units, d) ==> r == m
    ensures Holds(m.reg.units, d) ==>
      && |r.reg.units| == |m.reg.units| - 1 && FriendCode(d) !in r.reg.lookup
      && r.reg.total == m.reg.total - (if FriendCode(d) in m.reg.lookup then m.reg.lookup[FriendCode(d)] else 0)
  {
    m.(reg := Drop(m.reg, d))
  }

  /** Adopting a device whose friend code is not yet recorded keeps the
      global encoder count equal to the recorded sum; whatever the code, the
      count never falls below it. */
  lemma OnNewKeepsTotal<K>(m: KnobModule<K>, d: Device, count: Option<byte>)
    ensures TotalCovers(m.reg) ==> TotalCovers(OnNew(m, d, count).reg)
    ensures TotalMatches(m.reg) && FriendCode(d) !in m.reg.lookup ==> TotalMatches(OnNew(m, d, count).reg)
  {
    if d.typeId == TypeId(Knobs) && |d.rawSerial| > 0 && count.Some? {
      var kd := FromRaw(d.addr, d.channel, Some(d.rawSerial)).value;
      var u := Unit(kd, count.value, ZeroChanges(count.value));
      if TotalCovers(m.reg) { AdoptKeepsCover(m.reg, FriendCode(d), u); }
      if TotalMatches(m.reg) && FriendCode(d) !in m.reg.lookup { AdoptKeepsTotal(m.reg, FriendCode(d), u); }
    }
  }

  /** The adopted `KnobDevice` is rebuilt from the registry device's serial
      alone, so its own friend code is a different string from the one the
      lookup is keyed by; removal computes the key from the registry
      device, and the two agree. */
  lemma AdoptedCodeDiffers<K>(m: KnobModule<K>, d: Device, n: byte)
    requires d.typeId == TypeId(Knobs) && |d.rawSerial| > 0
    ensures var u := OnNew(m, d, Some(n)).reg.units[|m.reg.units|];
      FriendCode(u.dev) != FriendCode(d) && FriendCode(d) in OnNew(m, d, Some(n)).reg.lookup
  {
    var u := OnNew(m, d, Some(n)).reg.units[|m.reg.units|];
    FriendCodeRoundTrip(u.dev);
    FriendCodeRoundTrip(d);
    assert |u.dev.rawSerial| == |d.rawSerial| - 1 by {
      assert RawCode(u.dev) == d.rawSerial;
    }
  }

  // ---------------------------------------------------------------------
  // Events

  /** `if not self.map`: bindings are used only when set and non-empty. */
  predicate MapSet<K>(m: KnobModule<K>) {
    m.keymap.Some? && |m.keymap.value| > 0
  }

  /** Which of the two handler defects a run corrects. `skipIdle` runs the
      rotation handler only for the encoder's own non-zero delta, where
      knob_module.py:168 tests the whole list. `layerFixed` takes the layer
      from the keyboard's `active_layers`, where knob_module.py:120 and :142
      read `active_layer`, an attribute the keyboard does not have. */
  datatype Fixes = Fixes(skipIdle: bool, layerFixed: bool)

  /** The handlers as the source has them. */
  const AsWritten := Fixes(false, false)

  /** Both defects corrected. */
  const Corrected := Fixes(true, true)

  /** `self.map[layer_id][encoder_index]` for unit `local` of `dev`, where
      `None` stands for the exception the lookup raises. As written the
      layer is read from `self.keyboard.active_layer`, so the lookup always
      raises. With the layer corrected it is the keyboard's first active
      layer, and the lookup raises when there is no keyboard yet, no active
      layer, or an index out of range. */
  function Binding<K>(m: KnobModule<K>, dev: Device, local: int, layerFixed: bool): (r: Option<seq<K>>)
    ensures !layerFixed ==> r.None?
    ensures r.Some? ==> m.keymap.Some? && m.shell.keyboard.Some? && |m.shell.keyboard.value.activeLayers| > 0
  {
    if !layerFixed then None
    else match m.shell.keyboard
    case None => None
    case Some(kb) =>
      if |kb.activeLayers| == 0 then None
      else match m.keymap
        case None => None
        case Some(km) =>
          match PyIndex(km, kb.activeLayers[0])
          case None => None
          case Some(layer) => PyIndex(layer, UnitIndex(m.reg.units, dev, local))
  }

  /** Which binding a rotation uses: counter-clockwise for a negative
      delta, clockwise otherwise. */
  function Direction(delta: int): nat {
    if delta < 0 then 0 else 1
  }

  /** `handle_encoder_rotation`: the keys tapped, or `None` when it raises.
      The binding for the turn's direction is looked up before any tap,
      even for a zero delta. */
  function Rotation<K>(m: KnobModule<K>, dev: Device, local: int, delta: int, layerFixed: bool): (r: Option<seq<K>>)
    ensures !MapSet(m) ==> r == Some([])
    ensures MapSet(m) && !layerFixed ==> r.None?
    ensures MapSet(m) ==> (r.Some? <==> Binding(m, dev, local, layerFixed).Some? && Direction(delta) < |Binding(m, dev, local, layerFixed).value|)
    ensures MapSet(m) && r.Some? ==> |r.value| == Abs(delta)
    ensures MapSet(m) && r.Some? ==> forall i :: 0 <= i < |r.value| ==> r.value[i] == Binding(m, dev, local, layerFixed).value[Direction(delta)]
  {
    if !MapSet(m) then Some([])
    else match Binding(m, dev, local, layerFixed)
      case None => None
      case Some(b) =>
        match PyIndex(b, Direction(delta))
        case None => None
        case Some(key) => Some(Repeat(key, Abs(delta)))
  }

  /** `handle_encoder_pressed`: one tap of the press binding, or `None`
      when it raises. */
  function Press<K>(m: KnobModule<K>, dev: Device, local: int, layerFixed: bool): (r: Option<seq<K>>)
    ensures !MapSet(m) ==> r == Some([])
    ensures MapSet(m) && !layerFixed ==> r.None?
    ensures MapSet(m) ==> (r.Some? <==> Binding(m, dev, local, layerFixed).Some? && 2 < |Binding(m, dev, local, layerFixed).value|)
    ensures MapSet(m) && r.Some? ==> |r.value| == 1 && r.value[0] == Binding(m, dev, local, layerFixed).value[2]
  {
    if !MapSet(m) then Some([])
    else match Binding(m, dev, local, layerFixed)
      case None => None
      case Some(b) =>
        match PyIndex(b, 2)
        case None => None
        case Some(key) => Some([key])
  }

  /** Keys tapped by a run of handlers, and whether one of them raised
      (the keys tapped before the raise stay tapped). */
  datatype Taps<K> = Taps(raised: bool, keys: seq<K>)

  /** The inner loop of `update_knobs` over encoders `idx` onward of one
      device with decoded arrays `c`: the rotation handler, then the press
      handler when the pressed flag is set. Without `fx.skipIdle` the
      rotation handler runs for every encoder, as the always-true test
      `rotation_delta != 0` (a list compared with 0) makes it do; with it,
      only for a non-zero delta. */
  function EncoderEvents<K>(m: KnobModule<K>, dev: Device, c: KnobChanges, idx: nat, n: nat, fx: Fixes): (r: Taps<K>)
    requires KnobShaped(c, n)
    decreases n - idx
  {
    if idx >= n then Taps(false, [])
    else
      var turns := if fx.skipIdle && c.delta[idx] == 0 then Some([]) else Rotation(m, dev, idx, c.delta[idx], fx.layerFixed);
      match turns
      case None => Taps(true, [])
      case Some(t) =>
        var press := if c.pressed[idx] != 0 then Press(m, dev, idx, fx.layerFixed) else Some([]);
        match press
        case None => Taps(true, t)
        case Some(p) =>
          var rest := EncoderEvents(m, dev, c, idx + 1, n, fx);
          Taps(rest.raised, t + p + rest.keys)
  }

  /** The taps a device's arrays call for, encoders `idx` onward: each step
      of rotation and each set pressed flag. */
  function ExpectedTaps(c: KnobChanges, idx: nat, n: nat): nat
    requires KnobShaped(c, n)
    decreases n - idx
  {
    if idx >= n then 0
    else Abs(c.delta[idx]) + (if c.pressed[idx] != 0 then 1 else 0) + ExpectedTaps(c, idx + 1, n)
  }

  /** With bindings set, a run that does not raise taps exactly what the
      arrays call for: every encoder is visited. */
  lemma {:induction false} EncoderEventsCount<K>(m: KnobModule<K>, dev: Device, c: KnobChanges, idx: nat, n: nat, fx: Fixes)
    requires KnobShaped(c, n) && MapSet(m)
    ensures !EncoderEvents(m, dev, c, idx, n, fx).raised ==> |EncoderEvents(m, dev, c, idx, n, fx).keys| == ExpectedTaps(c, idx, n)
    decreases n - idx
  {
    if idx < n {
      EncoderEventsCount(m, dev, c, idx + 1, n, fx);
    }
  }

  /** Without bindings no handler raises and nothing is tapped. */
  lemma {:induction false} EncoderEventsUnbound<K>(m: KnobModule<K>, dev: Device, c: KnobChanges, idx: nat, n: nat, fx: Fixes)
    requires KnobShaped(c, n) && !MapSet(m)
    ensures EncoderEvents(m, dev, c, idx, n, fx) == Taps(false, [])
    decreases n - idx
  {
    if idx < n {
      EncoderEventsUnbound(m, dev, c, idx + 1, n, fx);
    }
  }

  // ---------------------------------------------------------------------
  // The update task

  /** The decoded arrays of one device's report; `None` when the read
      raises or the report does not unpack. */
  function Report(reply: Option<seq<byte>>, n: nat): (r: Option<KnobChanges>)
    ensures r.Some? <==> reply.Some? && |reply.value| == 3 * n
    ensures r.Some? ==> KnobShaped(r.value, n) && EncodeKnob(r.value) == reply.value
  {
    match reply
    case None => None
    case Some(buf) =>
      if |buf| == 3 * n then KnobDecodeEncode(buf, n); DecodeKnob(buf, n) else None
  }

  /** Result of `update_knobs`: whether an exception escaped, the driver
      afterwards and the keys tapped in order. */
  datatype KnobRun<K> = KnobRun(raised: bool, driver: KnobModule<K>, keys: seq<K>)

  /** Only the per-device arrays change. */
  ghost predicate SameApartFromArrays<K>(a: KnobModule<K>, b: KnobModule<K>) {
    && a.shell == b.shell && a.keymap == b.keymap
    && a.reg.lookup == b.reg.lookup && a.reg.total == b.reg.total
    && |a.reg.units| == |b.reg.units|
    && forall j :: 0 <= j < |a.reg.units| ==> a.reg.units[j].dev == b.reg.units[j].dev && a.reg.units[j].count == b.reg.units[j].count
  }

  /** `update_knobs` from device `i` onward. `read` is the reply to the
      report read of a device. Each device's decoded arrays are stored
      before its encoders are handled. */
  function UpdateFrom<K>(m: KnobModule<K>, read: Device -> Option<seq<byte>>, i: nat, fx: Fixes): (r: KnobRun<K>)
    decreases |m.reg.units| - i
    ensures SameApartFromArrays(m, r.driver)
    ensures forall j :: 0 <= j < i && j < |m.reg.units| ==> r.driver.reg.units[j] == m.reg.units[j]
    ensures !r.raised ==> forall j :: i <= j < |m.reg.units| ==>
      Report(read(m.reg.units[j].dev), m.reg.units[j].count) == Some(r.driver.reg.units[j].state)
  {
    if i >= |m.reg.units| then KnobRun(false, m, [])
    else
      var u := m.reg.units[i];
      match Report(read(u.dev), u.count)
      case None => KnobRun(true, m, [])
      case Some(c) =>
        var m1 := m.(reg := m.reg.(units := m.reg.units[i := u.(state := c)]));
        var ev := EncoderEvents(m1, u.dev, c, 0, u.count, fx);
        if ev.raised then KnobRun(true, m1, ev.keys)
        else
          var rest := UpdateFrom(m1, read, i + 1, fx);
          KnobRun(rest.raised, rest.driver, ev.keys + rest.keys)
  }

  /** `update_knobs`, as written. */
  function UpdateKnobs<K>(m: KnobModule<K>, read: Device -> Option<seq<byte>>): (r: KnobRun<K>)
    ensures SameApartFromArrays(m, r.driver)
    ensures !r.raised ==> forall j :: 0 <= j < |m.reg.units| ==>
      Report(read(m.reg.units[j].dev), m.reg.units[j].count) == Some(r.driver.reg.units[j].state)
  {
    UpdateFrom(m, read, 0, AsWritten)
  }

  /** `update_knobs` with the rotation handler guarded by the encoder's own
      delta. */
  function UpdateKnobsGuarded<K>(m: KnobModule<K>, read: Device -> Option<seq<byte>>): (r: KnobRun<K>)
    ensures SameApartFromArrays(m, r.driver)
    ensures !r.raised ==> forall j :: 0 <= j < |m.reg.units| ==>
      Report(read(m.reg.units[j].dev), m.reg.units[j].count) == Some(r.driver.reg.units[j].state)
  {
    UpdateFrom(m, read, 0, Corrected)
  }

  /** Taps the stored arrays of devices `i` onward call for. */
  function ExpectedAll(units: seq<Unit<KnobChanges>>, i: nat): nat
    decreases |units| - i
  {
    if i >= |units| then 0
    else
      var here := if KnobShaped(units[i].state, units[i].count) then ExpectedTaps(units[i].state, 0, units[i].count) else 0;
      here + ExpectedAll(units, i + 1)
  }

  lemma {:induction false} ExpectedAllFrom(a: seq<Unit<KnobChanges>>, b: seq<Unit<KnobChanges>>, i: nat)
    requires |a| == |b| && forall j :: i <= j < |a| ==> a[j] == b[j]
    ensures ExpectedAll(a, i) == ExpectedAll(b, i)
    decreases |a| - i
  {
    if i < |a| {
      ExpectedAllFrom(a, b, i + 1);
    }
  }

  /** With bindings set, an update that does not raise visits every encoder
      of every device: it taps exactly what the freshly stored arrays call
      for. */
  lemma {:induction false} UpdateCount<K>(m: KnobModule<K>, read: Device -> Option<seq<byte>>, i: nat, fx: Fixes)
    requires MapSet(m)
    ensures var r := UpdateFrom(m, read, i, fx);
      !r.raised ==> |r.keys| == ExpectedAll(r.driver.reg.units, i)
    decreases |m.reg.units| - i
  {
    if i < |m.reg.units| {
      var u := m.reg.units[i];
      var c := Report(read(u.dev), u.count);
      if c.Some? {
        var m1 := m.(reg := m.reg.(units := m.reg.units[i := u.(state := c.value)]));
        EncoderEventsCount(m1, u.dev, c.value, 0, u.count, fx);
        UpdateCount(m1, read, i + 1, fx);
        var r := UpdateFrom(m, read, i, fx);
        var ev := EncoderEvents(m1, u.dev, c.value, 0, u.count, fx);
        if !ev.raised {
          var rest := UpdateFrom(m1, read, i + 1, fx);
          assert r == KnobRun(rest.raised, rest.driver, ev.keys + rest.keys);
          assert rest.driver.reg.units[i] == m1.reg.units[i];
        }
      }
    }
  }

  /** Some device from `i` onward has a report that cannot be read. */
  predicate ReadFails<K>(m: KnobModule<K>, read: Device -> Option<seq<byte>>, i: nat) {
    exists j :: i <= j < |m.reg.units| && Report(read(m.reg.units[j].dev), m.reg.units[j].count).None?
  }

  /** Without bindings the update taps nothing and raises exactly when a
      report cannot be read. */
  lemma {:induction false} UpdateUnbound<K>(m: KnobModule<K>, read: Device -> Option<seq<byte>>, i: nat, fx: Fixes)
    requires !MapSet(m)
    ensures UpdateFrom(m, read, i, fx).keys == []
    ensures UpdateFrom(m, read, i, fx).raised <==> ReadFails(m, read, i)
    decreases |m.reg.units| - i
  {
    if i < |m.reg.units| {
      var u := m.reg.units[i];
      var c := Report(read(u.dev), u.count);
      if c.Some? {
        var m1 := m.(reg := m.reg.(units := m.reg.units[i := u.(state := c.value)]));
        EncoderEventsUnbound(m1, u.dev, c.value, 0, u.count, fx);
        UpdateUnbound(m1, read, i + 1, fx);
        assert ReadFails(m, read, i) <==> ReadFails(m1, read, i + 1) by {
          forall j | i < j < |m.reg.units|
            ensures m1.reg.units[j] == m.reg.units[j]
          {
          }
        }
      }
    }
  }

  /** The update with only the layer lookup corrected still raises for an
      idle encoder whose binding is missing, and the fully corrected one
      does not: one device with one encoder, a report of zero rotation and
      no press, and bindings with a single empty layer. */
  lemma IdleEncoderRaises(kb: Keyboard, dev: Device)
    requires kb.activeLayers == [0]
    ensures var m: KnobModule<int> := KnobModule(Shell(Knobs, Some(kb)), Registry([Unit(dev, 1, ZeroChanges(1))], map[], 0), Some([[]]));
      var quiet: Device -> Option<seq<byte>> := (d: Device) => Some([0, 0, 0]);
      UpdateFrom(m, quiet, 0, Fixes(false, true)).raised && !UpdateKnobsGuarded(m, quiet).raised
  {
    var m: KnobModule<int> := KnobModule(Shell(Knobs, Some(kb)), Registry([Unit(dev, 1, ZeroChanges(1))], map[], 0), Some([[]]));
    var quiet: Device -> Option<seq<byte>> := (d: Device) => Some([0, 0, 0]);
    var c := DecodeKnob([0, 0, 0], 1).value;
    assert c.delta == [0];
    assert Report(quiet(dev), 1) == Some(c);
    var m1 := m.(reg := m.reg.(units := m.reg.units[0 := m.reg.units[0].(state := c)]));
    assert UnitIndex(m1.reg.units, dev, 0) == 0;
    assert Binding(m1, dev, 0, true).None?;
    assert Rotation(m1, dev, 0, 0, true).None?;
    assert EncoderEvents(m1, dev, c, 0, 1, Fixes(false, true)).raised;
    assert UpdateFrom(m, quiet, 0, Fixes(false, true)).raised;
    assert EncoderEvents(m1, dev, c, 1, 1, Corrected) == Taps<int>.Taps(false, []);
    assert EncoderEvents(m1, dev, c, 0, 1, Corrected) == Taps<int>.Taps(false, []);
    assert !UpdateFrom(m1, quiet, 1, Corrected).raised;
    assert !UpdateFrom(m, quiet, 0, Corrected).raised;
  }

  /** Guarded, an encoder that neither turned nor was pressed never raises
      and taps nothing. */
  lemma GuardedIdleQuiet<K>(m: KnobModule<K>, dev: Device, c: KnobChanges, idx: nat, n: nat, layerFixed: bool)
    requires KnobShaped(c, n) && idx < n && c.delta[idx] == 0 && c.pressed[idx] == 0
    ensures EncoderEvents(m, dev, c, idx, n, Fixes(true, layerFixed)) == EncoderEvents(m, dev, c, idx + 1, n, Fixes(true, layerFixed))
  {
  }

  /** When every binding the encoders of a device look up is present, the
      loop with and without the idle guard taps the same keys. */
  lemma {:induction false} GuardAgreesWhenBound<K>(m: KnobModule<K>, dev: Device, c: KnobChanges, idx: nat, n: nat, layerFixed: bool)
    requires KnobShaped(c, n) && MapSet(m)
    requires forall j :: idx <= j < n ==> Binding(m, dev, j, layerFixed).Some? && |Binding(m, dev, j, layerFixed).value| > 1
    ensures EncoderEvents(m, dev, c, idx, n, Fixes(false, layerFixed)) == EncoderEvents(m, dev, c, idx, n, Fixes(true, layerFixed))
    decreases n - idx
  {
    if idx < n {
      GuardAgreesWhenBound(m, dev, c, idx + 1, n, layerFixed);
    }
  }

  /** Some device from `i` onward stops the update as written: its report
      cannot be read, or it has an encoder, whose handler then raises. */
  predicate StopsAsWritten<K>(m: KnobModule<K>, read: Device -> Option<seq<byte>>, i: nat) {
    exists j :: i <= j < |m.reg.units| &&
      (m.reg.units[j].count > 0 || Report(read(m.reg.units[j].dev), m.reg.units[j].count).None?)
  }

  /** As written, once bindings are set no key is ever tapped: the first
      handler to run raises at the layer lookup. The update raises exactly
      when some device has an encoder or an unreadable report. */
  lemma {:induction false} BoundUpdateRaises<K>(m: KnobModule<K>, read: Device -> Option<seq<byte>>, i: nat)
    requires MapSet(m)
    ensures UpdateFrom(m, read, i, AsWritten).keys == []
    ensures UpdateFrom(m, read, i, AsWritten).raised <==> StopsAsWritten(m, read, i)
    decreases |m.reg.units| - i
  {
    if i < |m.reg.units| {
      var u := m.reg.units[i];
      var c := Report(read(u.dev), u.count);
      if c.Some? {
        var m1 := m.(reg := m.reg.(units := m.reg.units[i := u.(state := c.value)]));
        if u.count == 0 {
          BoundUpdateRaises(m1, read, i + 1);
          assert StopsAsWritten(m, read, i) <==> StopsAsWritten(m1, read, i + 1) by {
            forall j | i < j < |m.reg.units|
              ensures m1.reg.units[j] == m.reg.units[j]
            {
            }
          }
        }
      }
    }
  }

  /** With the layer read from `active_layers`, bindings take effect: one
      device with one encoder bound to keys 1, 2 and 3 that turned three
      steps clockwise and was pressed taps 2, 2, 2 and then 3. As written
      the same update raises without a tap. */
  lemma LayerFixedTaps(kb: Keyboard, dev: Device)
    requires kb.activeLayers == [0]
    ensures var m: KnobModule<int> := KnobModule(Shell(Knobs, Some(kb)), Registry([Unit(dev, 1, ZeroChanges(1))], map[], 0), Some([[[1, 2, 3]]]));
      var turned: Device -> Option<seq<byte>> := (d: Device) => Some([3, 1, 0]);
      && UpdateKnobsGuarded(m, turned) == KnobRun(false, UpdateKnobsGuarded(m, turned).driver, [2, 2, 2, 3])
      && UpdateKnobs(m, turned).raised && UpdateKnobs(m, turned).keys == []
  {
    var m: KnobModule<int> := KnobModule(Shell(Knobs, Some(kb)), Registry([Unit(dev, 1, ZeroChanges(1))], map[], 0), Some([[[1, 2, 3]]]));
    var turned: Device -> Option<seq<byte>> := (d: Device) => Some([3, 1, 0]);
    var c := DecodeKnob([3, 1, 0], 1).value;
    assert c.delta == [3] && c.pressed == [1];
    assert Report(turned(dev), 1) == Some(c);
    var m1 := m.(reg := m.reg.(units := m.reg.units[0 := m.reg.units[0].(state := c)]));
    assert UnitIndex(m1.reg.units, dev, 0) == 0;
    assert Binding(m1, dev, 0, true) == Some([1, 2, 3]);
    assert Repeat(2, 3) == [2, 2, 2];
    assert Rotation(m1, dev, 0, 3, true) == Some([2, 2, 2]);
    assert Press(m1, dev, 0, true) == Some([3]);
    assert EncoderEvents(m1, dev, c, 1, 1, Corrected) == Taps<int>.Taps(false, []);
    assert EncoderEvents(m1, dev, c, 0, 1, Corrected) == Taps(false, [2, 2, 2, 3]);
    assert UpdateFrom(m1, turned, 1, Corrected) == KnobRun(false, m1, []);
    BoundUpdateRaises(m, turned, 0);
    assert m.reg.units[0].count > 0;
  }
}
