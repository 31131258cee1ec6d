/** The host as wired at boot: the manager, the slider and knob drivers
    registered as its observers, and the delivery of the manager's observer
    calls to those drivers. The reply to each driver's unit-count query is
    an oracle per device. */
module System {
  import opened Common
  import opened TwiDevice
  import opened TwiManager
  import opened Allocator
  import opened BaseModule
  import KnobDriver
  import SliderDriver

  /** The two drivers' states. */
  datatype Drivers<K> = Drivers(knobs: KnobDriver.KnobModule<K>, sliders: SliderDriver.SliderModule)

  function NewDrivers<K>(): (ds: Drivers<K>)
    ensures ds.knobs.reg.units == [] && ds.sliders.reg.units == []
  {
    Drivers(KnobDriver.NewKnobModule(), SliderDriver.NewSliderModule())
  }

  /** One observer call: the callback of the driver it names. */
  function Deliver<K>(ds: Drivers<K>, c: Call<ModuleType>, count: Device -> Option<byte>): (r: Drivers<K>)
    ensures c.observer == Knobs ==> r.sliders == ds.sliders
    ensures c.observer == Sliders ==> r.knobs == ds.knobs
  {
    match (c.observer, c.notice)
    case (Knobs, Added(d)) => ds.(knobs := KnobDriver.OnNew(ds.knobs, d, count(d)))
    case (Sliders, Added(d)) => ds.(sliders := SliderDriver.OnNew(ds.sliders, d, count(d)))
    case (Knobs, Removed(d)) => ds.(knobs := KnobDriver.OnRemoved(ds.knobs, d))
    case (Sliders, Removed(d)) => ds.(sliders := SliderDriver.OnRemoved(ds.sliders, d))
  }

  /** The calls in the order they are made. */
  function DeliverAll<K>(ds: Drivers<K>, calls: seq<Call<ModuleType>>, count: Device -> Option<byte>): Drivers<K>
    decreases |calls|
  {
    if calls == [] then ds else DeliverAll(Deliver(ds, calls[0], count), calls[1..], count)
  }

  /** A new device's fan-out reaches each registered driver once, and a
      driver that does not adopt the device's type keeps its state: with
      both drivers registered, a knob peripheral lands in the knob driver
      alone and a slider peripheral in the slider driver alone. */
  lemma {:induction false} AddedReachesOwner<K>(ds: Drivers<K>, obs: seq<ModuleType>, d: Device, count: Device -> Option<byte>)
    requires multiset(obs)[Knobs] <= 1 && multiset(obs)[Sliders] <= 1
    ensures var r := DeliverAll(ds, Notify(obs, Added(d)), count);
      && r.knobs == (if Knobs in obs then KnobDriver.OnNew(ds.knobs, d, count(d)) else ds.knobs)
      && r.sliders == (if Sliders in obs then SliderDriver.OnNew(ds.sliders, d, count(d)) else ds.sliders)
      && (d.typeId != TypeId(Sliders) ==> r.sliders == ds.sliders)
      && (d.typeId != TypeId(Knobs) ==> r.knobs == ds.knobs)
    decreases |obs|
  {
    if obs != [] {
      var o := obs[0];
      var rest := obs[1..];
      assert obs == [o] + rest;
      assert multiset(obs) == multiset{o} + multiset(rest);
      assert Notify(obs, Added(d))[1..] == Notify(rest, Added(d));
      var ds1 := Deliver(ds, Call(o, Added(d)), count);
      AddedReachesOwner(ds1, rest, d, count);
      assert o !in rest by {
        assert multiset(obs)[o] == 1 + multiset(rest)[o];
      }
    }
  }

  // ---------------------------------------------------------------------
  // What discovery tells the observers

  /** Every call goes to one of `obs` and announces a new device. */
  ghost predicate OnlyAdded<O>(obs: seq<O>, calls: seq<Call<O>>) {
    forall c :: c in calls ==> c.observer in obs && c.notice.Added?
  }

  /** Every device from index `from` on is announced to each of `obs`. */
  ghost predicate Announces<O>(obs: seq<O>, from: nat, devices: seq<Device>, calls: seq<Call<O>>) {
    forall j, i :: from <= j < |devices| && 0 <= i < |obs| ==> Call(obs[i], Added(devices[j])) in calls
  }

  /** Every call a drain makes goes to a registered new-device observer,
      and every device it registers reaches each of those observers. */
  lemma {:induction false} DrainNotifies<O>(m: Manager<O>, ch: nat, buses: Buses, k: nat)
    requires ch < |m.channels|
    ensures var r := DrainChannel(m, ch, buses, k);
      OnlyAdded(m.onNew, r.calls) && Announces(m.onNew, |m.devices|, r.mgr.devices, r.calls)
    decreases Room(m.channels[ch])
  {
    var s := Discover(m, ch, buses(ch, k));
    if s.outcome == Returned(true) {
      var d := s.mgr.devices[|m.devices|];
      DrainNotifies(s.mgr, ch, buses, k + 1);
      var rest := DrainChannel(s.mgr, ch, buses, k + 1);
      var r := DrainChannel(m, ch, buses, k);
      assert r.calls == s.calls + rest.calls && r.mgr == rest.mgr;
      assert r.mgr.devices[|m.devices|] == d by {
        assert rest.mgr.devices[..|s.mgr.devices|] == s.mgr.devices;
      }
      forall c | c in r.calls
        ensures c.observer in m.onNew && c.notice.Added?
      {
        if c in s.calls {
          var i :| 0 <= i < |s.calls| && s.calls[i] == c;
          assert c == Call(m.onNew[i], Added(d));
        }
      }
      forall j, i | |m.devices| <= j < |r.mgr.devices| && 0 <= i < |m.onNew|
        ensures Call(m.onNew[i], Added(r.mgr.devices[j])) in r.calls
      {
        if j == |m.devices| {
          assert s.calls[i] == Call(m.onNew[i], Added(d));
        } else {
          assert Call(s.mgr.onNew[i], Added(rest.mgr.devices[j])) in rest.calls;
        }
      }
    }
  }

  /** Two stretches of calls, the second made after the first's devices
      were registered, together announce every device either registered. */
  lemma AnnouncesConcat<O>(obs: seq<O>, from: nat, devs1: seq<Device>, calls1: seq<Call<O>>,
                           devs2: seq<Device>, calls2: seq<Call<O>>)
    requires from <= |devs1| <= |devs2| && devs2[..|devs1|] == devs1
    requires OnlyAdded(obs, calls1) && Announces(obs, from, devs1, calls1)
    requires OnlyAdded(obs, calls2) && Announces(obs, |devs1|, devs2, calls2)
    ensures OnlyAdded(obs, calls1 + calls2) && Announces(obs, from, devs2, calls1 + calls2)
  {
    forall j, i | from <= j < |devs2| && 0 <= i < |obs|
      ensures Call(obs[i], Added(devs2[j])) in calls1 + calls2
    {
      if j < |devs1| {
        assert devs2[j] == devs1[j];
        assert Call(obs[i], Added(devs1[j])) in calls1;
      } else {
        assert Call(obs[i], Added(devs2[j])) in calls2;
      }
    }
  }

  /** The same for the whole boot-time sweep. */
  lemma {:induction false} InitialDiscoveryNotifies<O>(m: Manager<O>, buses: Buses, from: nat)
    ensures var r := InitialDiscovery(m, buses, from);
      OnlyAdded(m.onNew, r.calls) && Announces(m.onNew, |m.devices|, r.mgr.devices, r.calls)
    decreases |m.channels| - from
  {
    if from < |m.channels| {
      DrainNotifies(m, from, buses, 0);
      var d := DrainChannel(m, from, buses, 0);
      if !d.raised {
        InitialDiscoveryNotifies(d.mgr, buses, from + 1);
        var rest := InitialDiscovery(d.mgr, buses, from + 1);
        AnnouncesConcat(m.onNew, |m.devices|, d.mgr.devices, d.calls, rest.mgr.devices, rest.calls);
      }
    }
  }

  // ---------------------------------------------------------------------
  // Boot order

  /** Boot as the firmware's entry point orders it, taking the scheduler
      call that follows the initial discovery to succeed: the manager over
      `channels` channels runs its initial discovery, and after it the
      slider and knob drivers are constructed and registered. As written
      that scheduler call raises before the drivers are built, so this is
      the order the entry point has once that call is repaired. Returns the
      manager, the drivers and how many devices the sweep registered. */
  function BootAsWritten<K>(channels: nat, buses: Buses, count: Device -> Option<byte>): (r: (Manager<ModuleType>, Drivers<K>, nat))
  {
    var s := InitialDiscovery(NewManager<ModuleType>(channels), buses, 0);
    (Register(Register(s.mgr, Sliders), Knobs), DeliverAll(NewDrivers(), s.calls, count), s.found)
  }

  /** In that order no driver hears of a device found at boot: the
      manager registers all of them and the drivers hold none. */
  lemma BootDevicesNeverReachDrivers<K>(channels: nat, buses: Buses, count: Device -> Option<byte>)
    ensures var b := BootAsWritten<K>(channels, buses, count);
      && |b.0.devices| == b.2
      && b.1.knobs.reg.units == [] && b.1.sliders.reg.units == []
  {
    var m := NewManager<ModuleType>(channels);
    InitialDiscoveryNotifies(m, buses, 0);
    var s := InitialDiscovery(m, buses, 0);
    NoneIn(s.calls);
  }

  /** With the drivers registered first, every device the sweep registers
      is announced to both drivers. */
  lemma BootDevicesReachDrivers<K>(channels: nat, buses: Buses)
    ensures var m := Register(Register(NewManager<ModuleType>(channels), Sliders), Knobs);
      var s := InitialDiscovery(m, buses, 0);
      && |s.mgr.devices| == s.found
      && forall j :: 0 <= j < |s.mgr.devices| ==>
           Call(Knobs, Added(s.mgr.devices[j])) in s.calls && Call(Sliders, Added(s.mgr.devices[j])) in s.calls
  {
    var m := Register(Register(NewManager<ModuleType>(channels), Sliders), Knobs);
    InitialDiscoveryNotifies(m, buses, 0);
    assert m.onNew == [Sliders, Knobs];
    var s := InitialDiscovery(m, buses, 0);
    forall j | 0 <= j < |s.mgr.devices|
      ensures Call(Knobs, Added(s.mgr.devices[j])) in s.calls && Call(Sliders, Added(s.mgr.devices[j])) in s.calls
    {
      assert Call(m.onNew[0], Added(s.mgr.devices[j])) in s.calls;
      assert Call(m.onNew[1], Added(s.mgr.devices[j])) in s.calls;
    }
  }
}
