/** The host's slider driver (`SliderModule`): adopts slider peripherals,
    decodes their change reports and turns level changes beyond a deadzone
    into MIDI control-change messages. The MIDI port is an output: the
    messages sent, in order. */
module SliderDriver {
  import opened Common
  import opened TwiDevice
  import opened Reports
  import opened UnitRegistry
  import opened BaseModule
  import opened Utils
  import opened Deadband

  /** `slider_deadzone`: a level must move by more than this to be sent. */
  const Deadzone: nat := 5

  /** `SliderDevice`'s arrays: the levels and changed flags last decoded,
      and the levels last sent (`old_slider_values`). */
  datatype SliderState = SliderState(values: seq<u16>, changed: seq<byte>, last: seq<int>)

  /** The driver: its shell and its registry. */
  datatype SliderModule = SliderModule(shell: Shell, reg: Registry<SliderState>)

  /** A MIDI control-change message. */
  datatype Cc = Cc(control: int, value: int)

  /** A driver as constructed: nothing adopted, no keyboard. */
  function NewSliderModule(): (m: SliderModule)
    ensures m.shell.target == Sliders && m.shell.keyboard.None?
    ensures m.reg.units == [] && |m.reg.lookup| == 0 && m.reg.total == 0
  {
    SliderModule(NewShell(Sliders), EmptyRegistry())
  }

  /** The arrays of a newly adopted slider device: levels and last sent
      levels zero; the changed flags keep the constructor's empty list. */
  function ZeroState(n: nat): (s: SliderState)
    ensures |s.values| == n && |s.last| == n && s.changed == []
    ensures forall i :: 0 <= i < n ==> s.values[i] == 0 && s.last[i] == 0
  {
    SliderState(Repeat(0, n), [], Repeat(0, n))
  }

  /** `twiman_new_device_callback`. `count` is the reply to the slider-count
      query, `None` when the query raises; a failed adoption leaves the
      driver as it was. */
  function OnNew(m: SliderModule, d: Device, count: Option<byte>): (r: SliderModule)
    ensures r.shell == m.shell
    ensures d.typeId != TypeId(Sliders) || |d.rawSerial| == 0 || count.None? ==> r == m
    ensures d.typeId == TypeId(Sliders) && |d.rawSerial| > 0 && count.Some? ==>
      && |r.reg.units| == |m.reg.units| + 1 && r.reg.units[..|m.reg.units|] == m.reg.units
      && SameDevice(r.reg.units[|m.reg.units|].dev, d)
      && RawCode(r.reg.units[|m.reg.units|].dev) == d.rawSerial
      && r.reg.units[|m.reg.units|].count == count.value
      && r.reg.units[|m.reg.units|].state == ZeroState(count.value)
      && r.reg.lookup == m.reg.lookup[FriendCode(d) := count.value]
      && r.reg.total == m.reg.total + count.value
  {
    if d.typeId != TypeId(Sliders) then m
    else match FromRaw(d.addr, d.channel, Some(d.rawSerial))
      case None => m
      case Some(sd) =>
        match count
        case None => m
        case Some(n) =>
          var r := m.(reg := Adopt(m.reg, FriendCode(d), Unit(sd, n, ZeroState(n))));
          assert r.reg.units[..|m.reg.units|] == m.reg.units;
          r
  }

  /** `twiman_removed_device_callback`: the shared removal bookkeeping. */
  function OnRemoved(m: SliderModule, d: Device): (r: SliderModule)
    ensures r.shell == m.shell
    ensures !Holds(m.reg.units, d) ==> r == m
    ensures Holds(m.reg.units, d) ==>
      && |r.reg.units| == |m.reg.units| - 1 && FriendCode(d) !in r.reg.lookup
      && r.reg.total == m.reg.total - (if FriendCode(d) in m.reg.lookup then m.reg.lookup[FriendCode(d)] else 0)
  {
    m.(reg := Drop(m.reg, d))
  }

  /** Adopting a device whose friend code is not yet recorded keeps the
      global slider count equal to the recorded sum; whatever the code, the
      count never falls below it. */
  lemma OnNewKeepsTotal(m: SliderModule, d: Device, count: Option<byte>)
    ensures TotalCovers(m.reg) ==> TotalCovers(OnNew(m, d, count).reg)
    ensures TotalMatches(m.reg) && FriendCode(d) !in m.reg.lookup ==> TotalMatches(OnNew(m, d, count).reg)
  {
    if d.typeId == TypeId(Sliders) && |d.rawSerial| > 0 && count.Some? {
      var sd := FromRaw(d.addr, d.channel, Some(d.rawSerial)).value;
      var u := Unit(sd, count.value, ZeroState(count.value));
      if TotalCovers(m.reg) { AdoptKeepsCover(m.reg, FriendCode(d), u); }
      if TotalMatches(m.reg) && FriendCode(d) !in m.reg.lookup { AdoptKeepsTotal(m.reg, FriendCode(d), u); }
    }
  }

  // ---------------------------------------------------------------------
  // Control-change values

  /** `int(map_value(value, 0, 1023, 0, 127))`. */
  function CcValue(v: int): int {
    Trunc(MapValue(v as real, 0.0, 1023.0, 0.0, 127.0).value)
  }

  /** For a non-negative level the value is the integer quotient
      `v * 127 / 1023`. */
  lemma CcValueQuotient(v: int)
    requires 0 <= v
    ensures CcValue(v) == v * 127 / 1023
  {
    var x := MapValue(v as real, 0.0, 1023.0, 0.0, 127.0).value;
    assert x == (v as real / 1023.0) * 127.0;
    assert x == (v * 127) as real / 1023 as real;
    TruncQuotient(v * 127, 1023);
  }

  /** A ten-bit level gives a MIDI data value: 0 maps to 0, 1023 to 127,
      and 700 to 86. */
  lemma CcValueRange(v: int)
    requires 0 <= v <= 1023
    ensures 0 <= CcValue(v) <= 127
    ensures CcValue(0) == 0 && CcValue(1023) == 127 && CcValue(700) == 86
  {
    MapValueRange(v as real, 0.0, 1023.0, 0.0, 127.0);
    CcValueQuotient(0);
    CcValueQuotient(1023);
    CcValueQuotient(700);
  }

  /** The value never decreases as the level rises. */
  lemma CcValueMonotone(v: int, w: int)
    requires 0 <= v <= w
    ensures CcValue(v) <= CcValue(w)
  {
    CcValueQuotient(v);
    CcValueQuotient(w);
    assert v * 127 <= w * 127;
  }

  // ---------------------------------------------------------------------
  // The update task

  /** The gated outcome of one slider: the deadzone is strict, so from 0 a
      level of 5 is not sent and a level of 6 is. */
  lemma DeadzoneIsStrict()
    ensures !Gate(0, 5, Deadzone).accepted && Gate(0, 6, Deadzone).accepted
    ensures Gate(0, 5, Deadzone).last == 0 && Gate(0, 6, Deadzone).last == 6
  {
  }

  /** The sliders of one device, from `idx` onward: each level is gated
      against the level last sent, and an accepted level is sent and becomes
      the level last sent. */
  datatype SliderRun = SliderRun(raised: bool, last: seq<int>, ccs: seq<Cc>)

  /** Which sliders of a report the loop gates: every one as written
      (`heed` false), only those flagged changed when `heed` is set. */
  function Seen(heed: bool, changed: seq<byte>): (seen: seq<bool>)
    ensures |seen| == |changed|
    ensures forall j :: 0 <= j < |changed| ==> (seen[j] <==> !heed || changed[j] != 0)
  {
    seq(|changed|, j requires 0 <= j < |changed| => !heed || changed[j] != 0)
  }

  /** One slider: gated when seen, left alone otherwise. */
  function Step(last: int, level: int, seen: bool): (g: Gated)
    ensures !seen ==> !g.accepted && g.last == last
    ensures seen ==> g == Gate(last, level, Deadzone)
  {
    if seen then Gate(last, level, Deadzone) else Gated(false, last)
  }

  /** How many of the levels from `idx` onward leave the deadzone. */
  function Escapes(vals: seq<int>, seen: seq<bool>, last: seq<int>, idx: nat, n: nat): nat
    requires |vals| == n && |seen| == n && n <= |last|
    decreases n - idx
  {
    if idx >= n then 0
    else (if Step(last[idx], vals[idx], seen[idx]).accepted then 1 else 0) + Escapes(vals, seen, last, idx + 1, n)
  }

  /** Slider `j` left the deadzone and `c` is its message. */
  predicate Escaped(units: seq<Unit<SliderState>>, dev: Device, vals: seq<int>, seen: seq<bool>, last: seq<int>, j: int, c: Cc) {
    0 <= j < |vals| && j < |seen| && j < |last| && Step(last[j], vals[j], seen[j]).accepted
    && c == Cc(UnitIndex(units, dev, j), CcValue(vals[j]))
  }

  /** `c` is the message of some slider from `idx` onward that left the
      deadzone. */
  ghost predicate SentFor(units: seq<Unit<SliderState>>, dev: Device, vals: seq<int>, seen: seq<bool>, last: seq<int>, idx: int, n: int, c: Cc) {
    exists j :: Escaped(units, dev, vals, seen, last, j, c) && idx <= j < n
  }

  /** Every slider from `idx` onward that left the deadzone has its
      message in `ccs`. */
  predicate AllSent(units: seq<Unit<SliderState>>, dev: Device, vals: seq<int>, seen: seq<bool>, last: seq<int>, idx: nat, n: nat, ccs: seq<Cc>) {
    forall j :: idx <= j < n && j < |vals| && j < |seen| && j < |last| && Step(last[j], vals[j], seen[j]).accepted ==>
      Cc(UnitIndex(units, dev, j), CcValue(vals[j])) in ccs
  }

  /** Control numbers strictly rise along `ccs`, so no control is sent
      twice. */
  predicate Rising(ccs: seq<Cc>) {
    forall k, l :: 0 <= k < l < |ccs| ==> ccs[k].control < ccs[l].control
  }

  lemma RisingPrepend(here: seq<Cc>, rest: seq<Cc>)
    requires |here| <= 1 && Rising(rest)
    requires forall x, y :: x in here && y in rest ==> x.control < y.control
    ensures Rising(here + rest)
  {
    if |here| == 1 {
      forall k, l | 0 <= k < l < |here + rest|
        ensures (here + rest)[k].control < (here + rest)[l].control
      {
        if k == 0 {
          assert (here + rest)[l] == rest[l - 1];
          assert rest[l - 1] in rest;
        } else {
          assert (here + rest)[k] == rest[k - 1] && (here + rest)[l] == rest[l - 1];
        }
      }
    } else {
      assert here + rest == rest;
    }
  }

  lemma AllSentStep(units: seq<Unit<SliderState>>, dev: Device, vals: seq<int>, seen: seq<bool>, last: seq<int>, last1: seq<int>,
                    idx: nat, n: nat, here: seq<Cc>, rest: seq<Cc>)
    requires |vals| == n && |seen| == n && idx < n && idx < |last| && |last1| == |last|
    requires forall j :: idx < j < |last| ==> last1[j] == last[j]
    requires Step(last[idx], vals[idx], seen[idx]).accepted ==> Cc(UnitIndex(units, dev, idx), CcValue(vals[idx])) in here
    requires AllSent(units, dev, vals, seen, last1, idx + 1, n, rest)
    ensures AllSent(units, dev, vals, seen, last, idx, n, here + rest)
  {
    forall j | idx <= j < n && j < |vals| && j < |seen| && j < |last| && Step(last[j], vals[j], seen[j]).accepted
      ensures Cc(UnitIndex(units, dev, j), CcValue(vals[j])) in here + rest
    {
      if j > idx {
        assert last1[j] == last[j];
      }
    }
  }

  /** A message for slider `idx` goes before those of later sliders. */
  lemma RisingStep(units: seq<Unit<SliderState>>, dev: Device, vals: seq<int>, seen: seq<bool>, last1: seq<int>,
                   idx: nat, n: nat, here: seq<Cc>, rest: seq<Cc>)
    requires |here| <= 1 && (|here| == 1 ==> here[0].control == UnitIndex(units, dev, idx))
    requires Rising(rest)
    requires forall k :: 0 <= k < |rest| ==> SentFor(units, dev, vals, seen, last1, idx + 1, n, rest[k])
    ensures Rising(here + rest)
  {
    forall x, y | x in here && y in rest
      ensures x.control < y.control
    {
      var k :| 0 <= k < |rest| && rest[k] == y;
      var j :| Escaped(units, dev, vals, seen, last1, j, y) && idx + 1 <= j < n;
      ControlsRise(units, dev, idx, j);
    }
    RisingPrepend(here, rest);
  }

  /** The inner loop of `update_sliders` over sliders `idx` onward; the
      index into the last-sent levels raises when that list is too short. */
  function SliderEvents(units: seq<Unit<SliderState>>, dev: Device, vals: seq<int>, seen: seq<bool>, last: seq<int>, idx: nat, n: nat): (r: SliderRun)
    requires |vals| == n && |seen| == n
    decreases n - idx
    ensures |r.last| == |last|
    ensures forall j :: 0 <= j < |last| && (j < idx || j >= n) ==> r.last[j] == last[j]
    ensures !r.raised ==> n <= |last| || idx >= n
    ensures r.raised ==> |last| < n
    ensures !r.raised && idx < n ==> forall j :: idx <= j < n ==> r.last[j] == Step(last[j], vals[j], seen[j]).last
    ensures !r.raised && idx < n ==> |r.ccs| == Escapes(vals, seen, last, idx, n)
    ensures forall k :: 0 <= k < |r.ccs| ==> SentFor(units, dev, vals, seen, last, idx, n, r.ccs[k])
  {
    if idx >= n then SliderRun(false, last, [])
    else if idx >= |last| then SliderRun(true, last, [])
    else
      var g := Step(last[idx], vals[idx], seen[idx]);
      var last1 := last[idx := g.last];
      var here := if g.accepted then [Cc(UnitIndex(units, dev, idx), CcValue(vals[idx]))] else [];
      var rest := SliderEvents(units, dev, vals, seen, last1, idx + 1, n);
      assert !rest.raised && idx + 1 < n ==> Escapes(vals, seen, last1, idx + 1, n) == Escapes(vals, seen, last, idx + 1, n) by {
        if !rest.raised && idx + 1 < n { EscapesFrom(vals, seen, last1, last, idx + 1, n); }
      }
      assert forall c :: SentFor(units, dev, vals, seen, last1, idx + 1, n, c) ==> SentFor(units, dev, vals, seen, last, idx, n, c) by {
        forall c | SentFor(units, dev, vals, seen, last1, idx + 1, n, c)
          ensures SentFor(units, dev, vals, seen, last, idx, n, c)
        {
          var j :| Escaped(units, dev, vals, seen, last1, j, c) && idx + 1 <= j < n;
          assert Escaped(units, dev, vals, seen, last, j, c);
        }
      }
      assert g.accepted ==> Escaped(units, dev, vals, seen, last, idx, here[0]);
      SliderRun(rest.raised, rest.last, here + rest.ccs)
  }

  lemma {:induction false} EscapesFrom(vals: seq<int>, seen: seq<bool>, a: seq<int>, b: seq<int>, idx: nat, n: nat)
    requires |vals| == n && |seen| == n && n <= |a| && n <= |b|
    requires forall j :: idx <= j < n ==> a[j] == b[j]
    ensures Escapes(vals, seen, a, idx, n) == Escapes(vals, seen, b, idx, n)
    decreases n - idx
  {
    if idx < n {
      EscapesFrom(vals, seen, a, b, idx + 1, n);
    }
  }

  /** A loop that completes sends the message of every slider that left
      the deadzone, and one device's messages go out in rising control
      order, so none is sent twice. */
  lemma {:induction false} SliderEventsComplete(units: seq<Unit<SliderState>>, dev: Device, vals: seq<int>, seen: seq<bool>, last: seq<int>, idx: nat, n: nat)
    requires |vals| == n && |seen| == n
    ensures var r := SliderEvents(units, dev, vals, seen, last, idx, n);
      (!r.raised ==> AllSent(units, dev, vals, seen, last, idx, n, r.ccs)) && Rising(r.ccs)
    decreases n - idx
  {
    if idx < n && idx < |last| {
      var g := Step(last[idx], vals[idx], seen[idx]);
      var last1 := last[idx := g.last];
      var here := if g.accepted then [Cc(UnitIndex(units, dev, idx), CcValue(vals[idx]))] else [];
      var rest := SliderEvents(units, dev, vals, seen, last1, idx + 1, n);
      SliderEventsComplete(units, dev, vals, seen, last1, idx + 1, n);
      assert SliderEvents(units, dev, vals, seen, last, idx, n) == SliderRun(rest.raised, rest.last, here + rest.ccs);
      if !rest.raised {
        AllSentStep(units, dev, vals, seen, last, last1, idx, n, here, rest.ccs);
      }
      RisingStep(units, dev, vals, seen, last1, idx, n, here, rest.ccs);
    }
  }

  /** The control numbers one device sends rise with the slider index.
      `SliderEventsComplete` builds on it: a device never sends two
      messages for the same control in one update. */
  lemma ControlsRise(units: seq<Unit<SliderState>>, dev: Device, j: int, k: int)
    requires j < k
    ensures UnitIndex(units, dev, j) < UnitIndex(units, dev, k)
  {
  }

  /** The decoded levels and flags of one device's report; `None` when the
      read raises or the report does not unpack. */
  function Report(reply: Option<seq<byte>>, n: nat): (r: Option<SliderChanges>)
    ensures r.Some? <==> reply.Some? && |reply.value| == 3 * n
    ensures r.Some? ==> SliderShaped(r.value, n)
  {
    match reply
    case None => None
    case Some(buf) => DecodeSlider(buf, n)
  }

  /** A decoded report is exactly the struct the firmware wrote. */
  lemma ReportIsImage(reply: Option<seq<byte>>, n: nat)
    requires Report(reply, n).Some?
    ensures EncodeSlider(Report(reply, n).value) == reply.value
  {
    SliderDecodeEncode(reply.value, n);
  }

  /** Result of `update_sliders`: whether an exception escaped, the driver
      afterwards and the messages sent in order. */
  datatype UpdateRun = UpdateRun(raised: bool, driver: SliderModule, ccs: seq<Cc>)

  /** Only the per-device arrays change. */
  predicate SameApartFromArrays(a: SliderModule, b: SliderModule) {
    && a.shell == b.shell && a.reg.lookup == b.reg.lookup && a.reg.total == b.reg.total
    && |a.reg.units| == |b.reg.units|
    && forall j :: 0 <= j < |a.reg.units| ==> a.reg.units[j].dev == b.reg.units[j].dev && a.reg.units[j].count == b.reg.units[j].count
  }

  /** Every slider of a device moved its last-sent level as the gate says
      for its new level: a level within the deadzone of the level last sent
      leaves it where it was, so drift below the deadzone never adds up to
      a message; with `heed` set, an unflagged slider keeps it too. */
  predicate GatedAll(before: Unit<SliderState>, after: Unit<SliderState>, heed: bool) {
    && before.count <= |before.state.last| && |after.state.last| == |before.state.last|
    && before.count <= |after.state.values| && before.count <= |after.state.changed|
    && forall k :: 0 <= k < before.count ==>
      after.state.last[k] == Step(before.state.last[k], after.state.values[k], !heed || after.state.changed[k] != 0).last
  }

  /** `c` was sent for a slider of some device from `i` onward that left
      the deadzone: its level as decoded into `after`, measured against the
      level last sent in `before`. */
  ghost predicate SentBy(before: seq<Unit<SliderState>>, after: seq<Unit<SliderState>>, heed: bool, i: int, c: Cc)
    requires |before| == |after|
  {
    exists j :: 0 <= i <= j < |before| &&
      SentFor(before, before[j].dev, after[j].state.values, Seen(heed, after[j].state.changed), before[j].state.last, 0, before[j].count, c)
  }

  /** Control numbers depend only on the devices and their counts. */
  lemma {:induction false} CountsBeforeAgree<S>(a: seq<Unit<S>>, b: seq<Unit<S>>, d: Device)
    requires |a| == |b| && forall j :: 0 <= j < |a| ==> a[j].dev == b[j].dev && a[j].count == b[j].count
    ensures CountsBefore(a, d) == CountsBefore(b, d)
  {
    if a != [] {
      CountsBeforeAgree(a[1..], b[1..], d);
    }
  }

  lemma SentForAgree(a: seq<Unit<SliderState>>, b: seq<Unit<SliderState>>, dev: Device, vals: seq<int>, seen: seq<bool>, last: seq<int>, n: int, c: Cc)
    requires |a| == |b| && forall j :: 0 <= j < |a| ==> a[j].dev == b[j].dev && a[j].count == b[j].count
    requires SentFor(b, dev, vals, seen, last, 0, n, c)
    ensures SentFor(a, dev, vals, seen, last, 0, n, c)
  {
    CountsBeforeAgree(a, b, dev);
    var j :| Escaped(b, dev, vals, seen, last, j, c) && 0 <= j < n;
    assert Escaped(a, dev, vals, seen, last, j, c);
  }

  lemma SentByStep(m: SliderModule, m1: SliderModule, fin: SliderModule, heed: bool, i: nat, here: seq<Cc>, rest: seq<Cc>)
    requires i < |m.reg.units| && SameApartFromArrays(m, m1) && SameApartFromArrays(m1, fin)
    requires forall j :: 0 <= j < |m.reg.units| && j != i ==> m1.reg.units[j] == m.reg.units[j]
    requires fin.reg.units[i] == m1.reg.units[i]
    requires forall x :: x in here ==>
      SentFor(m.reg.units, m.reg.units[i].dev, m1.reg.units[i].state.values, Seen(heed, m1.reg.units[i].state.changed), m.reg.units[i].state.last, 0, m.reg.units[i].count, x)
    requires forall x :: x in rest ==> SentBy(m1.reg.units, fin.reg.units, heed, i + 1, x)
    ensures forall x :: x in here + rest ==> SentBy(m.reg.units, fin.reg.units, heed, i, x)
    ensures rest == [] ==> forall x :: x in here ==> SentBy(m.reg.units, fin.reg.units, heed, i, x)
  {
    assert rest == [] ==> here + rest == here;
    forall x | x in here + rest
      ensures SentBy(m.reg.units, fin.reg.units, heed, i, x)
    {
      if x in here {
        assert SentFor(m.reg.units, m.reg.units[i].dev, fin.reg.units[i].state.values, Seen(heed, fin.reg.units[i].state.changed), m.reg.units[i].state.last, 0, m.reg.units[i].count, x);
      } else {
        var j :| 0 <= i + 1 <= j < |m1.reg.units| &&
          SentFor(m1.reg.units, m1.reg.units[j].dev, fin.reg.units[j].state.values, Seen(heed, fin.reg.units[j].state.changed), m1.reg.units[j].state.last, 0, m1.reg.units[j].count, x);
        SentForAgree(m.reg.units, m1.reg.units, m1.reg.units[j].dev, fin.reg.units[j].state.values, Seen(heed, fin.reg.units[j].state.changed), m1.reg.units[j].state.last, m1.reg.units[j].count, x);
        assert m1.reg.units[j] == m.reg.units[j];
      }
    }
  }

  /** A device on which the loop raises: its report cannot be read or
      unpacked, or it holds fewer last-sent levels than sliders. */
  predicate Stuck(u: Unit<SliderState>, read: Device -> Option<seq<byte>>) {
    Report(read(u.dev), u.count).None? || |u.state.last| < u.count
  }

  /** One device's turn in the loop: its arrays take the decoded report
      and the gated last-sent levels. */
  datatype Turn = Turn(raised: bool, driver: SliderModule, ccs: seq<Cc>)

  function DeviceTurn(m: SliderModule, heed: bool, i: nat, c: SliderChanges): (t: Turn)
    requires i < |m.reg.units| && SliderShaped(c, m.reg.units[i].count)
    ensures SameApartFromArrays(m, t.driver)
    ensures forall j :: 0 <= j < |m.reg.units| && j != i ==> t.driver.reg.units[j] == m.reg.units[j]
    ensures t.driver.reg.units[i].state.values == c.value && t.driver.reg.units[i].state.changed == c.changed
    ensures !t.raised ==> GatedAll(m.reg.units[i], t.driver.reg.units[i], heed)
    ensures t.raised ==> |m.reg.units[i].state.last| < m.reg.units[i].count
    ensures !t.raised ==> |t.ccs| == Escapes(c.value, Seen(heed, c.changed), m.reg.units[i].state.last, 0, m.reg.units[i].count)
    ensures forall x :: x in t.ccs ==>
      SentFor(m.reg.units, m.reg.units[i].dev, c.value, Seen(heed, c.changed), m.reg.units[i].state.last, 0, m.reg.units[i].count, x)
    ensures !t.raised ==> AllSent(m.reg.units, m.reg.units[i].dev, c.value, Seen(heed, c.changed), m.reg.units[i].state.last, 0, m.reg.units[i].count, t.ccs)
    ensures Rising(t.ccs)
  {
    var u := m.reg.units[i];
    var ev := SliderEvents(m.reg.units, u.dev, c.value, Seen(heed, c.changed), u.state.last, 0, u.count);
    SliderEventsComplete(m.reg.units, u.dev, c.value, Seen(heed, c.changed), u.state.last, 0, u.count);
    var m1 := m.(reg := m.reg.(units := m.reg.units[i := u.(state := SliderState(c.value, c.changed, ev.last))]));
    Turn(ev.raised, m1, ev.ccs)
  }

  /** The messages the gate calls for on devices `i` onward: one per
      slider whose level as stored in `after` left the deadzone around the
      level last sent in `before`. */
  function ExpectedCcs(before: seq<Unit<SliderState>>, after: seq<Unit<SliderState>>, heed: bool, i: nat): nat
    requires |before| == |after|
    decreases |before| - i
  {
    if i >= |before| then 0
    else
      var s := after[i].state;
      var n := before[i].count;
      var here := if |s.values| == n && |s.changed| == n && n <= |before[i].state.last|
        then Escapes(s.values, Seen(heed, s.changed), before[i].state.last, 0, n) else 0;
      here + ExpectedCcs(before, after, heed, i + 1)
  }

  lemma {:induction false} ExpectedCcsFrom(a: seq<Unit<SliderState>>, b: seq<Unit<SliderState>>, after: seq<Unit<SliderState>>, heed: bool, i: nat)
    requires |a| == |b| == |after| && forall j :: i <= j < |a| ==> a[j] == b[j]
    ensures ExpectedCcs(a, after, heed, i) == ExpectedCcs(b, after, heed, i)
    decreases |a| - i
  {
    if i < |a| {
      ExpectedCcsFrom(a, b, after, heed, i + 1);
    }
  }

  lemma CcCountStep(m: SliderModule, m1: SliderModule, fin: SliderModule, heed: bool, i: nat, c: SliderChanges,
                    here: seq<Cc>, rest: seq<Cc>, raised: bool)
    requires i < |m.reg.units| && SameApartFromArrays(m, m1) && SameApartFromArrays(m1, fin)
    requires forall j :: 0 <= j < |m.reg.units| && j != i ==> m1.reg.units[j] == m.reg.units[j]
    requires fin.reg.units[i] == m1.reg.units[i]
    requires SliderShaped(c, m.reg.units[i].count) && m.reg.units[i].count <= |m.reg.units[i].state.last|
    requires m1.reg.units[i].state.values == c.value && m1.reg.units[i].state.changed == c.changed
    requires |here| == Escapes(c.value, Seen(heed, c.changed), m.reg.units[i].state.last, 0, m.reg.units[i].count)
    requires !raised ==> |rest| == ExpectedCcs(m1.reg.units, fin.reg.units, heed, i + 1)
    ensures !raised ==> |here + rest| == ExpectedCcs(m.reg.units, fin.reg.units, heed, i)
  {
    ExpectedCcsFrom(m.reg.units, m1.reg.units, fin.reg.units, heed, i + 1);
  }

  /** Every slider of devices `i` onward whose level as stored in `after`
      left the deadzone around the level last sent in `before` has its
      message in `ccs`. */
  predicate SentAll(before: seq<Unit<SliderState>>, after: seq<Unit<SliderState>>, heed: bool, i: nat, ccs: seq<Cc>)
    requires |before| == |after|
  {
    forall j :: i <= j < |before| ==>
      AllSent(before, before[j].dev, after[j].state.values, Seen(heed, after[j].state.changed), before[j].state.last, 0, before[j].count, ccs)
  }

  /** A message present in `ccs` stays present when more are sent, and
      control numbers depend only on the devices and their counts. */
  lemma AllSentGrow(a: seq<Unit<SliderState>>, b: seq<Unit<SliderState>>, dev: Device, vals: seq<int>, seen: seq<bool>, last: seq<int>,
                    n: nat, ccs: seq<Cc>, more: seq<Cc>)
    requires |a| == |b| && forall j :: 0 <= j < |a| ==> a[j].dev == b[j].dev && a[j].count == b[j].count
    requires AllSent(b, dev, vals, seen, last, 0, n, ccs)
    requires forall x :: x in ccs ==> x in more
    ensures AllSent(a, dev, vals, seen, last, 0, n, more)
  {
    CountsBeforeAgree(a, b, dev);
  }

  lemma SentAllStep(m: SliderModule, m1: SliderModule, fin: SliderModule, heed: bool, i: nat, c: SliderChanges,
                    here: seq<Cc>, rest: seq<Cc>, raised: bool)
    requires i < |m.reg.units| && SameApartFromArrays(m, m1) && SameApartFromArrays(m1, fin)
    requires forall j :: 0 <= j < |m.reg.units| && j != i ==> m1.reg.units[j] == m.reg.units[j]
    requires fin.reg.units[i] == m1.reg.units[i]
    requires m1.reg.units[i].state.values == c.value && m1.reg.units[i].state.changed == c.changed
    requires AllSent(m.reg.units, m.reg.units[i].dev, c.value, Seen(heed, c.changed), m.reg.units[i].state.last, 0, m.reg.units[i].count, here)
    requires !raised ==> SentAll(m1.reg.units, fin.reg.units, heed, i + 1, rest)
    ensures !raised ==> SentAll(m.reg.units, fin.reg.units, heed, i, here + rest)
  {
    if !raised {
      forall j | i <= j < |m.reg.units|
        ensures AllSent(m.reg.units, m.reg.units[j].dev, fin.reg.units[j].state.values, Seen(heed, fin.reg.units[j].state.changed),
                        m.reg.units[j].state.last, 0, m.reg.units[j].count, here + rest)
      {
        var s := fin.reg.units[j].state;
        if j == i {
          AllSentGrow(m.reg.units, m.reg.units, m.reg.units[i].dev, c.value, Seen(heed, c.changed), m.reg.units[i].state.last,
                      m.reg.units[i].count, here, here + rest);
        } else {
          assert m1.reg.units[j] == m.reg.units[j];
          AllSentGrow(m.reg.units, m1.reg.units, m.reg.units[j].dev, s.values, Seen(heed, s.changed), m.reg.units[j].state.last,
                      m.reg.units[j].count, rest, here + rest);
        }
      }
    }
  }

  lemma StuckStep(m: SliderModule, m1: SliderModule, read: Device -> Option<seq<byte>>, i: nat, raised: bool)
    requires i < |m.reg.units| && |m1.reg.units| == |m.reg.units|
    requires forall j :: 0 <= j < |m.reg.units| && j != i ==> m1.reg.units[j] == m.reg.units[j]
    requires (forall j :: i + 1 <= j < |m1.reg.units| ==> !Stuck(m1.reg.units[j], read)) ==> !raised
    ensures (forall j :: i <= j < |m.reg.units| ==> !Stuck(m.reg.units[j], read)) ==> !raised
  {
    if forall j :: i <= j < |m.reg.units| ==> !Stuck(m.reg.units[j], read) {
      forall j | i + 1 <= j < |m1.reg.units|
        ensures !Stuck(m1.reg.units[j], read)
      {
        assert m1.reg.units[j] == m.reg.units[j];
      }
    }
  }

  /** `update_sliders` from device `i` onward. `read` is the reply to the
      report read of a device. With `heed` false this is the loop as
      written, which gates every slider's level and ignores the changed
      flags; with `heed` set only flagged sliders are gated. */
  function UpdateFrom(m: SliderModule, read: Device -> Option<seq<byte>>, heed: bool, i: nat): (r: UpdateRun)
    decreases |m.reg.units| - i
    ensures SameApartFromArrays(m, r.driver)
    ensures forall j :: 0 <= j < i && j < |m.reg.units| ==> r.driver.reg.units[j] == m.reg.units[j]
    ensures !r.raised ==> forall j :: i <= j < |m.reg.units| ==>
      var s := r.driver.reg.units[j].state;
      Report(read(m.reg.units[j].dev), m.reg.units[j].count) == Some(SliderChanges(s.values, s.changed))
    ensures !r.raised ==> forall j :: i <= j < |m.reg.units| ==> GatedAll(m.reg.units[j], r.driver.reg.units[j], heed)
    ensures forall c :: c in r.ccs ==> SentBy(m.reg.units, r.driver.reg.units, heed, i, c)
    ensures !r.raised ==> |r.ccs| == ExpectedCcs(m.reg.units, r.driver.reg.units, heed, i)
    ensures !r.raised ==> SentAll(m.reg.units, r.driver.reg.units, heed, i, r.ccs)
    ensures (forall j :: i <= j < |m.reg.units| ==> !Stuck(m.reg.units[j], read)) ==> !r.raised
  {
    if i >= |m.reg.units| then UpdateRun(false, m, [])
    else
      match Report(read(m.reg.units[i].dev), m.reg.units[i].count)
      case None => UpdateRun(true, m, [])
      case Some(c) =>
        var t := DeviceTurn(m, heed, i, c);
        if t.raised then
          SentByStep(m, t.driver, t.driver, heed, i, t.ccs, []);
          UpdateRun(true, t.driver, t.ccs)
        else
          var rest := UpdateFrom(t.driver, read, heed, i + 1);
          SentByStep(m, t.driver, rest.driver, heed, i, t.ccs, rest.ccs);
          StuckStep(m, t.driver, read, i, rest.raised);
          ArraysStep(m, t.driver, rest.driver, read, heed, i, c, rest.raised);
          CcCountStep(m, t.driver, rest.driver, heed, i, c, t.ccs, rest.ccs, rest.raised);
          SentAllStep(m, t.driver, rest.driver, heed, i, c, t.ccs, rest.ccs, rest.raised);
          UpdateRun(rest.raised, rest.driver, t.ccs + rest.ccs)
  }

  lemma ArraysStep(m: SliderModule, m1: SliderModule, fin: SliderModule, read: Device -> Option<seq<byte>>,
                   heed: bool, i: nat, c: SliderChanges, raised: bool)
    requires i < |m.reg.units| && SameApartFromArrays(m, m1) && SameApartFromArrays(m1, fin)
    requires forall j :: 0 <= j < |m.reg.units| && j != i ==> m1.reg.units[j] == m.reg.units[j]
    requires Report(read(m.reg.units[i].dev), m.reg.units[i].count) == Some(c)
    requires m1.reg.units[i].state.values == c.value && m1.reg.units[i].state.changed == c.changed
    requires GatedAll(m.reg.units[i], m1.reg.units[i], heed)
    requires forall j :: 0 <= j < i + 1 && j < |m1.reg.units| ==> fin.reg.units[j] == m1.reg.units[j]
    requires !raised ==> forall j :: i + 1 <= j < |m1.reg.units| ==>
      var s := fin.reg.units[j].state;
      Report(read(m1.reg.units[j].dev), m1.reg.units[j].count) == Some(SliderChanges(s.values, s.changed))
    requires !raised ==> forall j :: i + 1 <= j < |m1.reg.units| ==> GatedAll(m1.reg.units[j], fin.reg.units[j], heed)
    ensures SameApartFromArrays(m, fin)
    ensures forall j :: 0 <= j < i && j < |m.reg.units| ==> fin.reg.units[j] == m.reg.units[j]
    ensures !raised ==> forall j :: i <= j < |m.reg.units| ==>
      var s := fin.reg.units[j].state;
      Report(read(m.reg.units[j].dev), m.reg.units[j].count) == Some(SliderChanges(s.values, s.changed))
    ensures !raised ==> forall j :: i <= j < |m.reg.units| ==> GatedAll(m.reg.units[j], fin.reg.units[j], heed)
  {
    if !raised {
      forall j | i <= j < |m.reg.units|
        ensures var s := fin.reg.units[j].state;
          Report(read(m.reg.units[j].dev), m.reg.units[j].count) == Some(SliderChanges(s.values, s.changed))
        ensures GatedAll(m.reg.units[j], fin.reg.units[j], heed)
      {
        if j == i {
          assert fin.reg.units[i] == m1.reg.units[i];
        } else {
          assert m1.reg.units[j] == m.reg.units[j];
        }
      }
    }
  }

  /** `update_sliders` as written. */
  function UpdateSliders(m: SliderModule, read: Device -> Option<seq<byte>>): (r: UpdateRun)
    ensures SameApartFromArrays(m, r.driver)
    ensures !r.raised ==> forall j :: 0 <= j < |m.reg.units| ==>
      var s := r.driver.reg.units[j].state;
      Report(read(m.reg.units[j].dev), m.reg.units[j].count) == Some(SliderChanges(s.values, s.changed))
    ensures !r.raised ==> forall j :: 0 <= j < |m.reg.units| ==> GatedAll(m.reg.units[j], r.driver.reg.units[j], false)
    ensures forall c :: c in r.ccs ==> SentBy(m.reg.units, r.driver.reg.units, false, 0, c)
    ensures !r.raised ==> |r.ccs| == ExpectedCcs(m.reg.units, r.driver.reg.units, false, 0)
    ensures !r.raised ==> SentAll(m.reg.units, r.driver.reg.units, false, 0, r.ccs)
    ensures (forall j :: 0 <= j < |m.reg.units| ==> !Stuck(m.reg.units[j], read)) ==> !r.raised
  {
    UpdateFrom(m, read, false, 0)
  }

  /** `update_sliders` consulting the changed flags: a slider the firmware
      did not flag keeps its last-sent level and sends nothing. */
  function UpdateSlidersHeeded(m: SliderModule, read: Device -> Option<seq<byte>>): (r: UpdateRun)
    ensures SameApartFromArrays(m, r.driver)
    ensures !r.raised ==> forall j :: 0 <= j < |m.reg.units| ==>
      var s := r.driver.reg.units[j].state;
      Report(read(m.reg.units[j].dev), m.reg.units[j].count) == Some(SliderChanges(s.values, s.changed))
    ensures !r.raised ==> forall j :: 0 <= j < |m.reg.units| ==> GatedAll(m.reg.units[j], r.driver.reg.units[j], true)
    ensures forall c :: c in r.ccs ==> SentBy(m.reg.units, r.driver.reg.units, true, 0, c)
    ensures !r.raised ==> |r.ccs| == ExpectedCcs(m.reg.units, r.driver.reg.units, true, 0)
    ensures !r.raised ==> SentAll(m.reg.units, r.driver.reg.units, true, 0, r.ccs)
    ensures (forall j :: 0 <= j < |m.reg.units| ==> !Stuck(m.reg.units[j], read)) ==> !r.raised
  {
    UpdateFrom(m, read, true, 0)
  }

  /** What an update of every device did, as its contract states it. */
  ghost predicate Performs(m: SliderModule, read: Device -> Option<seq<byte>>, heed: bool, r: UpdateRun) {
    && SameApartFromArrays(m, r.driver)
    && (!r.raised ==> forall j :: 0 <= j < |m.reg.units| ==>
      var s := r.driver.reg.units[j].state;
      Report(read(m.reg.units[j].dev), m.reg.units[j].count) == Some(SliderChanges(s.values, s.changed)))
    && (!r.raised ==> forall j :: 0 <= j < |m.reg.units| ==> GatedAll(m.reg.units[j], r.driver.reg.units[j], heed))
    && (forall c :: c in r.ccs ==> SentBy(m.reg.units, r.driver.reg.units, heed, 0, c))
    && (!r.raised ==> |r.ccs| == ExpectedCcs(m.reg.units, r.driver.reg.units, heed, 0))
    && (!r.raised ==> SentAll(m.reg.units, r.driver.reg.units, heed, 0, r.ccs))
    && ((forall j :: 0 <= j < |m.reg.units| ==> !Stuck(m.reg.units[j], read)) ==> !r.raised)
  }

  lemma UpdatePerforms(m: SliderModule, read: Device -> Option<seq<byte>>)
    ensures Performs(m, read, false, UpdateSliders(m, read))
    ensures Performs(m, read, true, UpdateSlidersHeeded(m, read))
  {
  }

  /** A slider that is never gated sends nothing. */
  lemma UnseenSendsNothing(units: seq<Unit<SliderState>>, dev: Device, vals: seq<int>, last: seq<int>, n: int, c: Cc)
    ensures !SentFor(units, dev, vals, [false], last, 0, n, c)
  {
  }

  /** A driver holding one single-slider device, last sent at level 700. */
  function Resting(dev: Device): (m: SliderModule)
    ensures |m.reg.units| == 1 && m.reg.units[0].count == 1 && m.reg.units[0].state.last == [700]
    ensures m.reg.units[0].dev == dev
  {
    SliderModule(NewShell(Sliders), Registry([Unit(dev, 1, SliderState([700], [1], [700]))], map[], 0))
  }

  /** The report of a slider at level 0 with its changed flag clear. */
  lemma ZeroedReport(dev: Device)
    ensures Report(Some([0, 0, 0]), 1) == Some(SliderChanges([0], [0]))
  {
    assert DecodeSlider([0, 0, 0], 1).value.value[0] == 0;
    assert DecodeSlider([0, 0, 0], 1).value.value == [0];
  }

  lemma RestingEvents(units: seq<Unit<SliderState>>, dev: Device, heed: bool)
    requires UnitIndex(units, dev, 0) == 0
    ensures SliderEvents(units, dev, [0], Seen(heed, [0]), [700], 0, 1)
         == SliderRun(false, if heed then [700] else [0], if heed then [] else [Cc(0, 0)])
  {
    assert CcValue(0) == 0 by { CcValueQuotient(0); }
    assert Seen(heed, [0]) == [!heed];
    assert SliderEvents(units, dev, [0], [!heed], if heed then [700] else [0], 1, 1) == SliderRun(false, if heed then [700] else [0], []);
  }

  lemma RestingTurn(dev: Device, heed: bool)
    ensures var t := DeviceTurn(Resting(dev), heed, 0, SliderChanges([0], [0]));
      && !t.raised && t.driver.reg.units[0].state.last == (if heed then [700] else [0])
      && t.ccs == (if heed then [] else [Cc(0, 0)])
  {
    var m := Resting(dev);
    assert UnitIndex(m.reg.units, dev, 0) == 0;
    RestingEvents(m.reg.units, dev, heed);
  }

  /** One device with one slider, last sent at level 700, whose report
      reads level 0 with the flag clear. */
  predicate RestsAt700(m: SliderModule, read: Device -> Option<seq<byte>>) {
    && |m.reg.units| == 1 && m.reg.units[0].count == 1 && m.reg.units[0].state.last == [700]
    && Report(read(m.reg.units[0].dev), 1) == Some(SliderChanges([0], [0]))
  }

  lemma RestingStored(m: SliderModule, read: Device -> Option<seq<byte>>, heed: bool, r: UpdateRun)
    requires RestsAt700(m, read) && Performs(m, read, heed, r)
    ensures !r.raised && |r.driver.reg.units| == 1
    ensures r.driver.reg.units[0].state.values == [0] && r.driver.reg.units[0].state.changed == [0]
    ensures GatedAll(m.reg.units[0], r.driver.reg.units[0], heed)
  {
    forall j | 0 <= j < |m.reg.units|
      ensures !Stuck(m.reg.units[j], read)
    {
      assert j == 0;
    }
  }

  lemma RestingLast(before: Unit<SliderState>, after: Unit<SliderState>, heed: bool)
    requires before.count == 1 && before.state.last == [700]
    requires after.state.values == [0] && after.state.changed == [0]
    requires GatedAll(before, after, heed)
    ensures after.state.last == (if heed then [700] else [0])
  {
    assert after.state.last[0] == Step(700, 0, !heed).last;
  }

  lemma RestingQuiet(m: SliderModule, r: UpdateRun)
    requires |m.reg.units| == 1 && |r.driver.reg.units| == 1 && m.reg.units[0].count == 1
    requires r.driver.reg.units[0].state.changed == [0]
    requires forall c :: c in r.ccs ==> SentBy(m.reg.units, r.driver.reg.units, true, 0, c)
    ensures r.ccs == []
  {
    var s := r.driver.reg.units[0].state;
    assert Seen(true, s.changed) == [false];
    forall c
      ensures c !in r.ccs
    {
      UnseenSendsNothing(m.reg.units, m.reg.units[0].dev, s.values, m.reg.units[0].state.last, 1, c);
    }
    NoneIn(r.ccs);
  }

  /** As written, the one message is the slider's drop to control value 0. */
  lemma RestingDrop(m: SliderModule, r: UpdateRun)
    requires |m.reg.units| == 1 && |r.driver.reg.units| == 1 && m.reg.units[0].count == 1
    requires m.reg.units[0].state.last == [700]
    requires r.driver.reg.units[0].state.values == [0] && r.driver.reg.units[0].state.changed == [0]
    requires |r.ccs| == ExpectedCcs(m.reg.units, r.driver.reg.units, false, 0)
    requires forall c :: c in r.ccs ==> SentBy(m.reg.units, r.driver.reg.units, false, 0, c)
    ensures r.ccs == [Cc(0, 0)]
  {
    var s := r.driver.reg.units[0].state;
    assert Seen(false, s.changed) == [true];
    assert Escapes([0], [true], [700], 1, 1) == 0;
    assert ExpectedCcs(m.reg.units, r.driver.reg.units, false, 1) == 0;
    assert |r.ccs| == 1;
    assert r.ccs[0] in r.ccs;
    assert UnitIndex(m.reg.units, m.reg.units[0].dev, 0) == 0;
    assert CcValue(0) == 0 by { CcValueQuotient(0); }
    assert r.ccs[0] == Cc(0, 0);
  }

  lemma RestingUpdate(m: SliderModule, read: Device -> Option<seq<byte>>, heed: bool, r: UpdateRun)
    requires RestsAt700(m, read) && Performs(m, read, heed, r)
    ensures !r.raised && r.driver.reg.units[0].state.last == (if heed then [700] else [0])
    ensures heed ==> r.ccs == []
    ensures !heed ==> r.ccs == [Cc(0, 0)]
  {
    RestingStored(m, read, heed, r);
    RestingLast(m.reg.units[0], r.driver.reg.units[0], heed);
    if heed {
      RestingQuiet(m, r);
    } else {
      RestingDrop(m, r);
    }
  }

  /** The firmware zeroes its report after every get-changes reply, so a
      slider left resting at level 700 next reports level 0 with its flag
      clear. As written the host then sends control value 0 and forgets
      the level; consulting the flag, it sends nothing and keeps 700. */
  lemma RestingSliderDropsToZero(dev: Device, read: Device -> Option<seq<byte>>)
    requires read(dev) == Some([0, 0, 0])
    ensures DeviceTurn(Resting(dev), false, 0, SliderChanges([0], [0])).ccs == [Cc(0, 0)]
    ensures var asWritten := UpdateSliders(Resting(dev), read);
      && !asWritten.raised && asWritten.ccs == [Cc(0, 0)] && asWritten.driver.reg.units[0].state.last == [0]
    ensures var heeded := UpdateSlidersHeeded(Resting(dev), read);
      && !heeded.raised && heeded.ccs == [] && heeded.driver.reg.units[0].state.last == [700]
  {
    RestingTurn(dev, false);
    ZeroedReport(dev);
    var m := Resting(dev);
    assert RestsAt700(m, read);
    UpdatePerforms(m, read);
    RestingUpdate(m, read, false, UpdateSliders(m, read));
    RestingUpdate(m, read, true, UpdateSlidersHeeded(m, read));
  }
}
