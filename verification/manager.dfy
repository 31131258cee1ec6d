/** The host's peripheral manager (`TWIManager`): per-channel address
    allocation, the discovery handshake, the health check and the
    notification fan-out to registered observers. The bus is an oracle. */
module TwiManager {
  import opened Common
  import opened TwiDevice
  import opened Allocator
  import Protocol

  /** What an observer is told. */
  datatype Notice = Added(device: Device) | Removed(device: Device)

  /** One invocation of an observer callback. */
  datatype Call<O> = Call(observer: O, notice: Notice)

  /** The manager: one allocator per multiplexer channel (indexed by
      channel), the registered devices in registration order, and the
      new-device and removed-device observers in registration order. */
  datatype Manager<O> = Manager(
    channels: seq<ChannelAlloc>,
    devices: seq<Device>,
    onNew: seq<O>,
    onRemoved: seq<O>)

  /** What the bus answers, as seen by the manager: whether an address on a
      channel acknowledges a zero-length write, whether the address-change
      write to the default address succeeds, and the reply to an identity
      request (`None` when the read fails). */
  datatype Bus = Bus(
    ack: (int, int) -> bool,
    swapWrite: (int, int) -> bool,
    identity: (int, int) -> Option<FriendBytes>)

  /** The bus over a whole sweep: `buses(ch, k)` answers the `k`-th
      discovery attempt on channel `ch`. Successive attempts may see
      different answers: the default address falls silent once the last
      unpromoted peripheral on the channel has moved away. */
  type Buses = (nat, nat) -> Bus

  /** A manager over `channelCount` channels, all untouched. */
  function NewManager<O>(channelCount: nat): (m: Manager<O>)
    ensures |m.channels| == channelCount
    ensures forall c :: 0 <= c < channelCount ==> m.channels[c] == Fresh()
    ensures m.devices == [] && m.onNew == [] && m.onRemoved == []
  {
    Manager(seq(channelCount, _ => Fresh()), [], [], [])
  }

  function AddDeviceCallback<O>(m: Manager<O>, o: O): Manager<O> {
    m.(onNew := m.onNew + [o])
  }

  function AddRemovalCallback<O>(m: Manager<O>, o: O): Manager<O> {
    m.(onRemoved := m.onRemoved + [o])
  }

  /** The fan-out of one notice: every observer once, in registration
      order. A failing observer is caught, so it never shortens the list. */
  function Notify<O>(obs: seq<O>, n: Notice): (r: seq<Call<O>>)
    ensures |r| == |obs|
    ensures forall i :: 0 <= i < |obs| ==> r[i] == Call(obs[i], n)
  {
    if obs == [] then [] else [Call(obs[0], n)] + Notify(obs[1..], n)
  }

  /** The calls made for a sequence of removed devices, device by device. */
  function RemovalCalls<O>(obs: seq<O>, removed: seq<Device>): seq<Call<O>>
    decreases |removed|
  {
    if removed == [] then []
    else RemovalCalls(obs, removed[..|removed| - 1]) + Notify(obs, Removed(removed[|removed| - 1]))
  }

  /** How often one observer hears one notice from a single fan-out. */
  lemma {:induction false} NotifyCount<O>(obs: seq<O>, n: Notice, o: O, n': Notice)
    ensures multiset(Notify(obs, n))[Call(o, n')] == if n == n' then multiset(obs)[o] else 0
  {
    if obs != [] {
      NotifyCount(obs[1..], n, o, n');
      assert obs == [obs[0]] + obs[1..];
      assert multiset(obs) == multiset([obs[0]]) + multiset(obs[1..]);
      assert multiset(Notify(obs, n)) == multiset([Call(obs[0], n)]) + multiset(Notify(obs[1..], n));
    }
  }

  /** Exactly once per removal: for removed devices that are pairwise
      distinct, each observer hears of each removed device as many times as
      it is registered, and never of any other device. */
  lemma {:induction false} RemovalCallsCount<O>(obs: seq<O>, removed: seq<Device>, o: O, d: Device)
    requires forall i, j :: 0 <= i < j < |removed| ==> removed[i] != removed[j]
    ensures multiset(RemovalCalls(obs, removed))[Call(o, Removed(d))] == if d in removed then multiset(obs)[o] else 0
    decreases |removed|
  {
    if removed != [] {
      var init := removed[..|removed| - 1];
      var last := removed[|removed| - 1];
      var c := Call(o, Removed(d));
      var before := RemovalCalls(obs, init);
      var now := Notify(obs, Removed(last));
      assert RemovalCalls(obs, removed) == before + now;
      RemovalCallsCount(obs, init, o, d);
      NotifyCount(obs, Removed(last), o, Removed(d));
      CountAppend(before, now, c);
      assert removed == init + [last];
      assert last !in init;
      assert d in removed <==> d in init || d == last;
    }
  }

  lemma CountAppend<T>(a: seq<T>, b: seq<T>, x: T)
    ensures multiset(a + b)[x] == multiset(a)[x] + multiset(b)[x]
  {
    assert multiset(a + b) == multiset(a) + multiset(b);
  }

  // ---------------------------------------------------------------------
  // Registry bookkeeping

  /** The addresses registered devices occupy on a channel. */
  function AddrsOn(ds: seq<Device>, c: int): set<int> {
    set j | 0 <= j < |ds| && ds[j].channel == c :: ds[j].addr
  }

  /** No two registered devices share (address, channel). */
  predicate UniqueKeys(ds: seq<Device>) {
    forall i, j :: 0 <= i < j < |ds| ==> !SameDevice(ds[i], ds[j])
  }

  /** The manager invariant: every allocator is valid and its active set is
      exactly the addresses of the devices registered on that channel, every
      device sits on an existing channel and carries a ten-byte serial, and
      no two devices share (address, channel). */
  predicate Consistent<O>(m: Manager<O>) {
    ChannelsMatch(m.channels, m.devices) && DevicesPlaced(m.channels, m.devices) && UniqueKeys(m.devices)
  }

  /** Every allocator is valid and tracks exactly its channel's devices. */
  predicate ChannelsMatch(channels: seq<ChannelAlloc>, ds: seq<Device>) {
    forall c :: 0 <= c < |channels| ==> Valid(channels[c]) && channels[c].active == AddrsOn(ds, c)
  }

  /** Every device sits on an existing channel with a ten-byte serial. */
  predicate DevicesPlaced(channels: seq<ChannelAlloc>, ds: seq<Device>) {
    forall j :: 0 <= j < |ds| ==> 0 <= ds[j].channel < |channels| && |ds[j].rawSerial| == Protocol.SerialLen
  }

  lemma NewManagerConsistent<O>(channelCount: nat)
    ensures Consistent(NewManager<O>(channelCount))
  {
  }

  lemma AddrsOnAppend(ds: seq<Device>, d: Device, c: int)
    ensures AddrsOn(ds + [d], c) == AddrsOn(ds, c) + (if d.channel == c then {d.addr} else {})
  {
    var ds' := ds + [d];
    assert forall j :: 0 <= j < |ds| ==> ds'[j] == ds[j];
    assert ds'[|ds|] == d;
  }

  function RemoveAt(ds: seq<Device>, i: int): (r: seq<Device>)
    requires 0 <= i < |ds|
    ensures |r| == |ds| - 1
    ensures forall j :: 0 <= j < i ==> r[j] == ds[j]
    ensures forall j :: i <= j < |r| ==> r[j] == ds[j + 1]
  {
    ds[..i] + ds[i + 1..]
  }

  lemma RemoveAtFacts(ds: seq<Device>, i: int)
    requires 0 <= i < |ds| && UniqueKeys(ds)
    ensures UniqueKeys(RemoveAt(ds, i))
    ensures forall c :: AddrsOn(RemoveAt(ds, i), c) == AddrsOn(ds, c) - (if ds[i].channel == c then {ds[i].addr} else {})
    ensures forall d :: d in RemoveAt(ds, i) <==> d in ds && !SameDevice(d, ds[i])
  {
    var r := RemoveAt(ds, i);
    forall c
      ensures AddrsOn(r, c) == AddrsOn(ds, c) - (if ds[i].channel == c then {ds[i].addr} else {})
    {
      forall a | a in AddrsOn(ds, c) && !(ds[i].channel == c && a == ds[i].addr)
        ensures a in AddrsOn(r, c)
      {
        var j :| 0 <= j < |ds| && ds[j].channel == c && ds[j].addr == a;
        if j < i { assert r[j] == ds[j]; } else { assert r[j - 1] == ds[j]; }
      }
      forall a | a in AddrsOn(r, c)
        ensures a in AddrsOn(ds, c) && !(ds[i].channel == c && a == ds[i].addr)
      {
        var j :| 0 <= j < |r| && r[j].channel == c && r[j].addr == a;
        if j < i { assert r[j] == ds[j]; } else { assert r[j] == ds[j + 1]; }
      }
    }
    forall d
      ensures d in r <==> d in ds && !SameDevice(d, ds[i])
    {
      if d in ds && !SameDevice(d, ds[i]) {
        var j :| 0 <= j < |ds| && ds[j] == d;
        if j < i { assert r[j] == d; } else { assert j > i; assert r[j - 1] == d; }
      }
      if d in r {
        var j :| 0 <= j < |r| && r[j] == d;
        if j < i { assert r[j] == ds[j]; } else { assert r[j] == ds[j + 1]; }
      }
    }
  }

  // ---------------------------------------------------------------------
  // Discovery

  /** Result of one discovery attempt: how it ended, the new manager state
      and the observer calls it made. */
  datatype Step<O> = Step(outcome: Outcome, mgr: Manager<O>, calls: seq<Call<O>>)

  /** `discover_new_device_on_channel`: probe the default address, allocate
      a candidate, promote the peripheral with the address-change frame,
      confirm it answers at the candidate, read its identity, register it and
      notify every new-device observer. An unreadable identity makes the
      device constructor raise after the candidate was allocated. */
  function Discover<O>(m: Manager<O>, ch: nat, bus: Bus): (r: Step<O>)
    requires ch < |m.channels|
    ensures !bus.ack(ch, Protocol.DefaultAddr) ==> r == Step(Returned(false), m, [])
    ensures r.mgr.onNew == m.onNew && r.mgr.onRemoved == m.onRemoved
    ensures |r.mgr.channels| == |m.channels|
    ensures forall c :: 0 <= c < |m.channels| && c != ch ==> r.mgr.channels[c] == m.channels[c]
    ensures r.outcome != Returned(true) ==>
      && r.mgr.devices == m.devices && r.calls == []
      && r.mgr.channels[ch].active == m.channels[ch].active
    ensures r.outcome == Returned(true) <==>
      && bus.ack(ch, Protocol.DefaultAddr)
      && Allocate(m.channels[ch]).addr.Some?
      && bus.swapWrite(ch, Allocate(m.channels[ch]).addr.value)
      && bus.ack(ch, Allocate(m.channels[ch]).addr.value)
      && bus.identity(ch, Allocate(m.channels[ch]).addr.value).Some?
    ensures r.outcome == Returned(true) ==>
      |r.mgr.devices| == |m.devices| + 1 &&
      var al := Allocate(m.channels[ch]);
      var d := r.mgr.devices[|m.devices|];
      && al.addr.Some?
      && r.mgr.devices == m.devices + [d]
      && d.addr == al.addr.value && d.channel == ch
      && RawCode(d) == bus.identity(ch, al.addr.value).value
      && r.mgr.channels[ch] == Commit(al.state, al.addr.value)
      && r.calls == Notify(m.onNew, Added(d))
      && Room(r.mgr.channels[ch]) < Room(m.channels[ch])
  {
    if !bus.ack(ch, Protocol.DefaultAddr) then Step(Returned(false), m, [])
    else
      var al := Allocate(m.channels[ch]);
      match al.addr
      case None => Step(Returned(false), m.(channels := m.channels[ch := al.state]), [])
      case Some(a) =>
        if !bus.swapWrite(ch, a) || !bus.ack(ch, a) then
          Step(Returned(false), m.(channels := m.channels[ch := GiveBack(al.state, a)]), [])
        else
          match FromRaw(a, ch, bus.identity(ch, a))
          case None => Step(Raised, m.(channels := m.channels[ch := al.state]), [])
          case Some(d) =>
            var m' := Manager(m.channels[ch := Commit(al.state, a)], m.devices + [d], m.onNew, m.onRemoved);
            assert m'.devices[|m.devices|] == d;
            Step(Returned(true), m', Notify(m.onNew, Added(d)))
  }

  /** Allocator exhaustion ends the attempt with `False`, changing neither
      the active set nor the registry. */
  lemma DiscoverExhausted<O>(m: Manager<O>, ch: nat, bus: Bus)
    requires ch < |m.channels| && Valid(m.channels[ch])
    requires forall a :: Allocatable(a) ==> a in m.channels[ch].active
    ensures Discover(m, ch, bus).outcome == Returned(false)
    ensures Discover(m, ch, bus).mgr.devices == m.devices
    ensures Discover(m, ch, bus).mgr.channels[ch].active == m.channels[ch].active
  {
    ExhaustedFails(m.channels[ch]);
  }

  /** A failed promotion or confirmation puts the candidate on the freed
      list, registers nothing, and the next allocation returns the same
      candidate. */
  lemma DiscoverPromotionFails<O>(m: Manager<O>, ch: nat, bus: Bus)
    requires ch < |m.channels| && Valid(m.channels[ch])
    requires bus.ack(ch, Protocol.DefaultAddr)
    requires Allocate(m.channels[ch]).addr.Some?
    requires !bus.swapWrite(ch, Allocate(m.channels[ch]).addr.value) || !bus.ack(ch, Allocate(m.channels[ch]).addr.value)
    ensures var r := Discover(m, ch, bus); var a := Allocate(m.channels[ch]).addr.value;
      && r.outcome == Returned(false)
      && r.mgr.devices == m.devices && r.calls == []
      && a !in r.mgr.channels[ch].active
      && |r.mgr.channels[ch].freed| > 0 && r.mgr.channels[ch].freed[|r.mgr.channels[ch].freed| - 1] == a
      && Allocate(r.mgr.channels[ch]).addr == Some(a)
  {
    var al := Allocate(m.channels[ch]);
    GiveBackThenAllocate(al.state, al.addr.value);
    if |m.channels[ch].freed| > 0 {
      assert al.addr.value == m.channels[ch].freed[|m.channels[ch].freed| - 1];
    }
  }

  /** An unreadable identity raises: the candidate was allocated but lands
      in neither the active set nor the freed list, and nothing is
      registered. */
  lemma DiscoverUnreadIdentity<O>(m: Manager<O>, ch: nat, bus: Bus)
    requires ch < |m.channels| && Valid(m.channels[ch])
    requires bus.ack(ch, Protocol.DefaultAddr)
    requires Allocate(m.channels[ch]).addr.Some?
    requires bus.swapWrite(ch, Allocate(m.channels[ch]).addr.value) && bus.ack(ch, Allocate(m.channels[ch]).addr.value)
    requires bus.identity(ch, Allocate(m.channels[ch]).addr.value).None?
    ensures var r := Discover(m, ch, bus); var a := Allocate(m.channels[ch]).addr.value;
      && r.outcome == Raised
      && r.mgr.devices == m.devices && r.calls == []
      && a !in r.mgr.channels[ch].active
      && a !in r.mgr.channels[ch].freed
  {
    AllocateValid(m.channels[ch]);
  }

  /** Discovery preserves the manager invariant. */
  lemma DiscoverConsistent<O>(m: Manager<O>, ch: nat, bus: Bus)
    requires ch < |m.channels| && Consistent(m)
    ensures Consistent(Discover(m, ch, bus).mgr)
  {
    var r := Discover(m, ch, bus);
    if bus.ack(ch, Protocol.DefaultAddr) {
      var al := Allocate(m.channels[ch]);
      AllocateValid(m.channels[ch]);
      if al.addr.Some? {
        var a := al.addr.value;
        if !bus.swapWrite(ch, a) || !bus.ack(ch, a) {
          GiveBackValid(al.state, a);
        } else if bus.identity(ch, a).Some? {
          CommitValid(al.state, a);
          var d := r.mgr.devices[|m.devices|];
          forall c | 0 <= c < |m.channels|
            ensures r.mgr.channels[c].active == AddrsOn(r.mgr.devices, c)
          {
            AddrsOnAppend(m.devices, d, c);
          }
          assert a !in AddrsOn(m.devices, ch);
          forall i, j | 0 <= i < j < |r.mgr.devices|
            ensures !SameDevice(r.mgr.devices[i], r.mgr.devices[j])
          {
            if j == |m.devices| {
              assert r.mgr.devices[i] == m.devices[i];
            }
          }
          assert |d.rawSerial| == |RawCode(d)| - 1;
        }
      }
    }
  }

  // ---------------------------------------------------------------------
  // Health check

  /** The active addresses of channel `ch` at or above `lo` that fail to
      acknowledge, in ascending order. */
  function ProbeChannel(active: set<int>, ch: int, ack: (int, int) -> bool, lo: int): (r: seq<int>)
    decreases MaxAddr + 1 - lo
    ensures forall i :: 0 <= i < |r| ==> r[i] in active && !ack(ch, r[i]) && lo <= r[i] <= MaxAddr
    ensures forall a :: a in active && !ack(ch, a) && lo <= a <= MaxAddr ==> a in r
    ensures forall i, j :: 0 <= i < j < |r| ==> r[i] < r[j]
  {
    if lo > MaxAddr then []
    else
      var rest := ProbeChannel(active, ch, ack, lo + 1);
      if lo in active && !ack(ch, lo) then [lo] + rest else rest
  }

  /** Pairs each address with its channel. */
  function OnChannel(ch: int, addrs: seq<int>): (r: seq<(int, int)>)
    ensures |r| == |addrs|
    ensures forall i :: 0 <= i < |addrs| ==> r[i] == (ch, addrs[i])
  {
    if addrs == [] then [] else [(ch, addrs[0])] + OnChannel(ch, addrs[1..])
  }

  /** The first phase of the health check over channels `from` onward:
      channels with no active address are skipped, the rest probed. No
      entry appears twice. */
  function DeadList<O>(m: Manager<O>, ack: (int, int) -> bool, from: nat): (r: seq<(int, int)>)
    decreases |m.channels| - from
    ensures forall i :: 0 <= i < |r| ==>
      from <= r[i].0 < |m.channels| && r[i].1 in m.channels[r[i].0].active && !ack(r[i].0, r[i].1)
    ensures forall i, j :: 0 <= i < j < |r| ==> r[i] != r[j]
  {
    if from >= |m.channels| then []
    else
      var here := DeadHere(m, ack, from);
      var rest := DeadList(m, ack, from + 1);
      DistinctAcrossChannels(here, rest, from);
      here + rest
  }

  /** The part of the dead list contributed by channel `c`. */
  function DeadHere<O>(m: Manager<O>, ack: (int, int) -> bool, c: nat): (r: seq<(int, int)>)
    requires c < |m.channels|
    ensures forall i :: 0 <= i < |r| ==> r[i].0 == c && r[i].1 in m.channels[c].active && !ack(c, r[i].1)
    ensures forall a :: (a in m.channels[c].active && !ack(c, a) && FirstAddr <= a <= MaxAddr) ==> (c, a) in r
    ensures forall i, j :: 0 <= i < j < |r| ==> r[i] != r[j]
  {
    if m.channels[c].active == {} then []
    else
      var probed := ProbeChannel(m.channels[c].active, c, ack, FirstAddr);
      OnChannelCovers(c, probed);
      OnChannel(c, probed)
  }

  lemma OnChannelCovers(ch: int, addrs: seq<int>)
    ensures forall a :: a in addrs ==> (ch, a) in OnChannel(ch, addrs)
  {
    var r := OnChannel(ch, addrs);
    forall a | a in addrs
      ensures (ch, a) in r
    {
      var i :| 0 <= i < |addrs| && addrs[i] == a;
      assert r[i] == (ch, a);
    }
  }

  lemma DeadListUnfold<O>(m: Manager<O>, ack: (int, int) -> bool, from: nat)
    requires from < |m.channels|
    ensures DeadList(m, ack, from) == DeadHere(m, ack, from) + DeadList(m, ack, from + 1)
  {
  }

  /** The dead list names every non-acknowledging active address in range. */
  lemma {:induction false} DeadListComplete<O>(m: Manager<O>, ack: (int, int) -> bool, from: nat)
    ensures forall c, a :: (from <= c < |m.channels| && a in m.channels[c].active && !ack(c, a)
            && FirstAddr <= a <= MaxAddr) ==> (c, a) in DeadList(m, ack, from)
    decreases |m.channels| - from
  {
    if from < |m.channels| {
      DeadListComplete(m, ack, from + 1);
      DeadListUnfold(m, ack, from);
      var here := DeadHere(m, ack, from);
      var rest := DeadList(m, ack, from + 1);
      forall c, a | from <= c < |m.channels| && a in m.channels[c].active && !ack(c, a) && FirstAddr <= a <= MaxAddr
        ensures (c, a) in here + rest
      {
        if c == from {
          assert (c, a) in here;
        } else {
          assert (c, a) in rest;
        }
      }
    }
  }

  /** The dead list names each entry once. */
  /** Entries of one channel followed by entries of later channels. */
  lemma DistinctAcrossChannels(here: seq<(int, int)>, rest: seq<(int, int)>, ch: int)
    requires Distinct(here) && Distinct(rest)
    requires forall i :: 0 <= i < |here| ==> here[i].0 == ch
    requires forall j :: 0 <= j < |rest| ==> rest[j].0 > ch
    ensures Distinct(here + rest)
  {
    forall i, j | 0 <= i < |here| && 0 <= j < |rest|
      ensures here[i] != rest[j]
    {
      assert here[i].0 == ch < rest[j].0;
    }
    DistinctConcat(here, rest);
  }

  predicate Distinct<T(==)>(s: seq<T>) {
    forall i, j :: 0 <= i < j < |s| ==> s[i] != s[j]
  }

  lemma DistinctConcat<T>(a: seq<T>, b: seq<T>)
    requires Distinct(a) && Distinct(b)
    requires forall i, j :: 0 <= i < |a| && 0 <= j < |b| ==> a[i] != b[j]
    ensures Distinct(a + b)
  {
    var r := a + b;
    forall i, j | 0 <= i < j < |r|
      ensures r[i] != r[j]
    {
      if j < |a| {
        assert r[i] == a[i] && r[j] == a[j];
      } else if i >= |a| {
        assert r[i] == b[i - |a|] && r[j] == b[j - |a|];
      } else {
        assert r[i] == a[i] && r[j] == b[j - |a|];
      }
    }
  }

  /** The last device registered at (channel, address), or -1. */
  function LastMatch(ds: seq<Device>, c: int, a: int): (i: int)
    ensures -1 <= i < |ds|
    ensures i >= 0 ==> ds[i].channel == c && ds[i].addr == a
    ensures i >= 0 ==> forall j :: i < j < |ds| ==> !(ds[j].channel == c && ds[j].addr == a)
    ensures i < 0 ==> forall j :: 0 <= j < |ds| ==> !(ds[j].channel == c && ds[j].addr == a)
  {
    if ds == [] then -1
    else if ds[|ds| - 1].channel == c && ds[|ds| - 1].addr == a then |ds| - 1
    else LastMatch(ds[..|ds| - 1], c, a)
  }

  /** One dead entry: free the address and drop the last device
      registered at (channel, address), if any. Returns the new state and the
      dropped device as a sequence of at most one. */
  function Retire<O>(m: Manager<O>, c: int, a: int): (r: (Manager<O>, seq<Device>))
    requires 0 <= c < |m.channels|
    ensures |r.0.channels| == |m.channels| && r.0.onNew == m.onNew && r.0.onRemoved == m.onRemoved
    ensures r.0.channels[c] == Free(m.channels[c], a)
    ensures forall c' :: 0 <= c' < |m.channels| && c' != c ==> r.0.channels[c'] == m.channels[c']
  {
    var chans := m.channels[c := Free(m.channels[c], a)];
    var i := LastMatch(m.devices, c, a);
    if i < 0 then (m.(channels := chans), [])
    else (m.(channels := chans, devices := RemoveAt(m.devices, i)), [m.devices[i]])
  }

  /** The second phase of the health check: retire each dead entry in
      order. Returns the new state and the removed devices in removal
      order. */
  function ProcessDead<O>(m: Manager<O>, dead: seq<(int, int)>): (r: (Manager<O>, seq<Device>))
    requires forall i :: 0 <= i < |dead| ==> 0 <= dead[i].0 < |m.channels|
    decreases |dead|
    ensures |r.0.channels| == |m.channels| && r.0.onNew == m.onNew && r.0.onRemoved == m.onRemoved
  {
    if dead == [] then (m, [])
    else
      var step := Retire(m, dead[0].0, dead[0].1);
      var rest := ProcessDead(step.0, dead[1..]);
      (rest.0, step.1 + rest.1)
  }

  /** Result of a health check. */
  datatype Health<O> = Health(mgr: Manager<O>, removed: seq<Device>, calls: seq<Call<O>>)

  /** `health_check_all_active_devices`. */
  function HealthCheck<O>(m: Manager<O>, bus: Bus): (r: Health<O>)
    ensures r.calls == RemovalCalls(m.onRemoved, r.removed)
    ensures |r.mgr.channels| == |m.channels| && r.mgr.onNew == m.onNew && r.mgr.onRemoved == m.onRemoved
  {
    var dead := DeadList(m, bus.ack, 0);
    var (m', removed) := ProcessDead(m, dead);
    Health(m', removed, RemovalCalls(m.onRemoved, removed))
  }

  /** Retiring an active entry of a consistent manager keeps the invariant
      and removes exactly the one device registered there. */
  lemma RetireActive<O>(m: Manager<O>, c: int, a: int)
    requires Consistent(m) && 0 <= c < |m.channels| && a in m.channels[c].active
    ensures var (m1, gone) := Retire(m, c, a);
      && Consistent(m1)
      && |gone| == 1 && gone[0] in m.devices && gone[0].channel == c && gone[0].addr == a
      && (forall d :: d in m.devices && d.channel == c && d.addr == a ==> d == gone[0])
      && (forall d :: d in m1.devices <==> d in m.devices && !(d.channel == c && d.addr == a))
      && (forall c', a' :: 0 <= c' < |m.channels| ==> (a' in m1.channels[c'].active <==> a' in m.channels[c'].active && (c', a') != (c, a)))
  {
    var i := ActiveIsRegistered(m, c, a);
    RemoveAtFacts(m.devices, i);
    var r := Retire(m, c, a);
    assert r.0.devices == RemoveAt(m.devices, i) && r.1 == [m.devices[i]];
    RetireChannels(m, c, a, i, r.0);
    RemoveAtPlaced(m.channels, m.devices, i);
  }

  /** An active address is held by exactly one registered device, the one
      the reverse search finds. */
  lemma ActiveIsRegistered<O>(m: Manager<O>, c: int, a: int) returns (i: int)
    requires Consistent(m) && 0 <= c < |m.channels| && a in m.channels[c].active
    ensures i == LastMatch(m.devices, c, a) && 0 <= i < |m.devices|
    ensures m.devices[i].channel == c && m.devices[i].addr == a
    ensures forall d :: d in m.devices && d.channel == c && d.addr == a ==> d == m.devices[i]
  {
    i := LastMatch(m.devices, c, a);
    assert a in AddrsOn(m.devices, c);
    var k :| 0 <= k < |m.devices| && m.devices[k].channel == c && m.devices[k].addr == a;
    forall d | d in m.devices && d.channel == c && d.addr == a
      ensures d == m.devices[i]
    {
      var j :| 0 <= j < |m.devices| && m.devices[j] == d;
    }
  }

  /** The allocators after retiring device `i` at (c, a). */
  lemma RetireChannels<O>(m: Manager<O>, c: int, a: int, i: int, m1: Manager<O>)
    requires Consistent(m) && 0 <= c < |m.channels| && a in m.channels[c].active
    requires 0 <= i < |m.devices| && m.devices[i].channel == c && m.devices[i].addr == a
    requires m1 == Retire(m, c, a).0 && m1.devices == RemoveAt(m.devices, i)
    requires forall c' :: AddrsOn(RemoveAt(m.devices, i), c') == AddrsOn(m.devices, c') - (if c == c' then {a} else {})
    ensures ChannelsMatch(m1.channels, m1.devices)
    ensures forall c', a' :: 0 <= c' < |m.channels| ==> (a' in m1.channels[c'].active <==> a' in m.channels[c'].active && (c', a') != (c, a))
  {
    FreeValid(m.channels[c], a);
    forall c' | 0 <= c' < |m1.channels|
      ensures Valid(m1.channels[c']) && m1.channels[c'].active == AddrsOn(m1.devices, c')
    {
      if c' == c {
        assert m1.channels[c'] == Free(m.channels[c], a);
      } else {
        assert m1.channels[c'] == m.channels[c'];
      }
    }
  }

  /** Removing a device keeps every other device placed. */
  lemma RemoveAtPlaced(channels: seq<ChannelAlloc>, ds: seq<Device>, i: int)
    requires DevicesPlaced(channels, ds) && 0 <= i < |ds|
    ensures DevicesPlaced(channels, RemoveAt(ds, i))
  {
    var r := RemoveAt(ds, i);
    forall j | 0 <= j < |r|
      ensures 0 <= r[j].channel < |channels| && |r[j].rawSerial| == Protocol.SerialLen
    {
      if j < i { assert r[j] == ds[j]; } else { assert r[j] == ds[j + 1]; }
    }
  }

  /** What the removal phase guarantees. */
  ghost predicate RemovalDone<O>(m: Manager<O>, dead: seq<(int, int)>, m': Manager<O>, removed: seq<Device>) {
    && Consistent(m') && |m'.channels| == |m.channels|
    && (forall d :: d in m'.devices <==> d in m.devices && (d.channel, d.addr) !in dead)
    && (forall d :: d in removed <==> d in m.devices && (d.channel, d.addr) in dead)
    && Distinct(removed)
    && (forall c, a :: 0 <= c < |m.channels| ==> (a in m'.channels[c].active <==> a in m.channels[c].active && (c, a) !in dead))
  }

  /** Entries that are all active on existing channels. */
  ghost predicate AllActive<O>(m: Manager<O>, dead: seq<(int, int)>) {
    forall i :: 0 <= i < |dead| ==> 0 <= dead[i].0 < |m.channels| && dead[i].1 in m.channels[dead[i].0].active
  }

  /** The effect of the removal phase on a consistent manager, given a list
      of distinct dead entries that are all active. */
  lemma {:induction false} ProcessDeadEffect<O>(m: Manager<O>, dead: seq<(int, int)>)
    requires Consistent(m) && AllActive(m, dead) && Distinct(dead)
    ensures RemovalDone(m, dead, ProcessDead(m, dead).0, ProcessDead(m, dead).1)
    decreases |dead|
  {
    if dead != [] {
      var (c, a) := dead[0];
      var tail := dead[1..];
      RetireActive(m, c, a);
      var (m1, gone) := Retire(m, c, a);
      assert dead == [(c, a)] + tail;
      assert (c, a) !in tail;
      assert AllActive(m1, tail);
      ProcessDeadEffect(m1, tail);
      var (m', rest) := ProcessDead(m1, tail);
      assert ProcessDead(m, dead) == (m', gone + rest);
      RemovalStep(m, c, a, tail, m1, gone, m', rest);
    }
  }

  /** The inductive step of `ProcessDeadEffect`. */
  lemma RemovalStep<O>(m: Manager<O>, c: int, a: int, tail: seq<(int, int)>, m1: Manager<O>, gone: seq<Device>, m': Manager<O>, rest: seq<Device>)
    requires |m1.channels| == |m.channels|
    requires (c, a) !in tail
    requires |gone| == 1 && gone[0] in m.devices && gone[0].channel == c && gone[0].addr == a
    requires forall d :: d in m.devices && d.channel == c && d.addr == a ==> d == gone[0]
    requires forall d :: d in m1.devices <==> d in m.devices && !(d.channel == c && d.addr == a)
    requires forall c', a' :: 0 <= c' < |m.channels| ==> (a' in m1.channels[c'].active <==> a' in m.channels[c'].active && (c', a') != (c, a))
    requires RemovalDone(m1, tail, m', rest)
    ensures RemovalDone(m, [(c, a)] + tail, m', gone + rest)
  {
    var dead := [(c, a)] + tail;
    assert forall x :: x in dead <==> x == (c, a) || x in tail;
    assert gone[0] !in rest;
    forall i, j | 0 <= i < |gone| && 0 <= j < |rest|
      ensures gone[i] != rest[j]
    {
      assert rest[j] in rest;
    }
    DistinctConcat(gone, rest);
  }

  /** The health check on a consistent manager: the invariant still holds,
      exactly the non-acknowledging active addresses leave the active set,
      exactly the devices registered at them are removed (each reported
      once), and the devices at acknowledging addresses stay. */
  lemma HealthCheckEffect<O>(m: Manager<O>, bus: Bus)
    requires Consistent(m)
    ensures var r := HealthCheck(m, bus);
      && Consistent(r.mgr)
      && (forall c, a :: 0 <= c < |m.channels| ==>
            (a in r.mgr.channels[c].active <==> a in m.channels[c].active && bus.ack(c, a)))
      && (forall d :: d in r.mgr.devices <==> d in m.devices && bus.ack(d.channel, d.addr))
      && (forall d :: d in r.removed <==> d in m.devices && !bus.ack(d.channel, d.addr))
      && Distinct(r.removed)
  {
    var dead := DeadList(m, bus.ack, 0);
    DeadListComplete(m, bus.ack, 0);
    ProcessDeadEffect(m, dead);
    forall c, a | 0 <= c < |m.channels| && a in m.channels[c].active
      ensures (c, a) in dead <==> !bus.ack(c, a)
    {
      assert Valid(m.channels[c]);
    }
    forall d | d in m.devices
      ensures (d.channel, d.addr) in dead <==> !bus.ack(d.channel, d.addr)
    {
      var j :| 0 <= j < |m.devices| && m.devices[j] == d;
      assert d.addr in AddrsOn(m.devices, d.channel);
    }
  }

  /** A dead address is freed: after the health check it is on its
      channel's freed list. */
  lemma {:induction false} ProcessDeadFrees<O>(m: Manager<O>, dead: seq<(int, int)>, k: int)
    requires AllActive(m, dead) && Distinct(dead) && 0 <= k < |dead|
    ensures dead[k].1 in ProcessDead(m, dead).0.channels[dead[k].0].freed
    decreases |dead|
  {
    var (c, a) := dead[0];
    var m1 := Retire(m, c, a).0;
    var tail := dead[1..];
    assert ProcessDead(m, dead).0 == ProcessDead(m1, tail).0;
    if k == 0 {
      assert a in m1.channels[c].freed;
      FreedStays(m1, tail, c, a);
    } else {
      forall j | 0 <= j < |tail|
        ensures 0 <= tail[j].0 < |m1.channels| && tail[j].1 in m1.channels[tail[j].0].active
      {
        assert tail[j] == dead[j + 1] && dead[j + 1] != dead[0];
      }
      ProcessDeadFrees(m1, tail, k - 1);
    }
  }

  /** Freed addresses are never taken back off the freed list by the
      removal phase. */
  lemma {:induction false} FreedStays<O>(m: Manager<O>, dead: seq<(int, int)>, c: int, a: int)
    requires forall i :: 0 <= i < |dead| ==> 0 <= dead[i].0 < |m.channels|
    requires 0 <= c < |m.channels| && a in m.channels[c].freed
    ensures a in ProcessDead(m, dead).0.channels[c].freed
    decreases |dead|
  {
    if dead != [] {
      var (c0, a0) := dead[0];
      var m1 := Retire(m, c0, a0).0;
      assert a in m1.channels[c].freed;
      FreedStays(m1, dead[1..], c, a);
    }
  }

  /** The health check frees every non-acknowledging active address. */
  lemma HealthCheckFrees<O>(m: Manager<O>, bus: Bus, c: int, a: int)
    requires Consistent(m) && 0 <= c < |m.channels| && a in m.channels[c].active && !bus.ack(c, a)
    ensures a in HealthCheck(m, bus).mgr.channels[c].freed
  {
    var dead := DeadList(m, bus.ack, 0);
    DeadListComplete(m, bus.ack, 0);
    assert Valid(m.channels[c]);
    var k :| 0 <= k < |dead| && dead[k] == (c, a);
    ProcessDeadFrees(m, dead, k);
  }

  // ---------------------------------------------------------------------
  // Sweeps

  /** Result of a sweep: whether an exception escaped, the new state, the
      observer calls made and how many devices were registered. */
  datatype Sweep<O> = Sweep(raised: bool, mgr: Manager<O>, calls: seq<Call<O>>, found: nat)

  /** The inner loop of `initial_discovery`: attempt discovery on one channel
      until an attempt does not return `True`, attempt `k` onward. */
  function DrainChannel<O>(m: Manager<O>, ch: nat, buses: Buses, k: nat): (r: Sweep<O>)
    requires ch < |m.channels|
    decreases Room(m.channels[ch])
    ensures |r.mgr.channels| == |m.channels| && r.mgr.onNew == m.onNew && r.mgr.onRemoved == m.onRemoved
    ensures |r.mgr.devices| == |m.devices| + r.found && r.mgr.devices[..|m.devices|] == m.devices
  {
    var bus := buses(ch, k);
    var s := Discover(m, ch, bus);
    if s.outcome == Returned(true) then
      var rest := DrainChannel(s.mgr, ch, buses, k + 1);
      assert |s.mgr.devices| == |m.devices| + 1 && s.mgr.devices[..|m.devices|] == m.devices;
      assert rest.mgr.devices[..|m.devices|] == rest.mgr.devices[..|s.mgr.devices|][..|m.devices|];
      Sweep(rest.raised, rest.mgr, s.calls + rest.calls, rest.found + 1)
    else Sweep(s.outcome == Raised, s.mgr, [], 0)
  }

  /** `initial_discovery` over channels `from` onward: drain each channel in
      turn; an escaping exception ends the whole sweep. */
  function InitialDiscovery<O>(m: Manager<O>, buses: Buses, from: nat): (r: Sweep<O>)
    decreases |m.channels| - from
    ensures |r.mgr.channels| == |m.channels| && r.mgr.onNew == m.onNew && r.mgr.onRemoved == m.onRemoved
    ensures |r.mgr.devices| == |m.devices| + r.found && r.mgr.devices[..|m.devices|] == m.devices
  {
    if from >= |m.channels| then Sweep(false, m, [], 0)
    else
      var d := DrainChannel(m, from, buses, 0);
      if d.raised then d
      else
        var rest := InitialDiscovery(d.mgr, buses, from + 1);
        assert rest.mgr.devices[..|m.devices|] == rest.mgr.devices[..|d.mgr.devices|][..|m.devices|];
        Sweep(rest.raised, rest.mgr, d.calls + rest.calls, d.found + rest.found)
  }

  /** `discovery_scan_all_channels` over channels `from` onward: one attempt
      per channel. */
  function ScanAllChannels<O>(m: Manager<O>, bus: Bus, from: nat): (r: Sweep<O>)
    decreases |m.channels| - from
    ensures |r.mgr.channels| == |m.channels| && r.mgr.onNew == m.onNew && r.mgr.onRemoved == m.onRemoved
    ensures |r.mgr.devices| == |m.devices| + r.found && r.mgr.devices[..|m.devices|] == m.devices
  {
    if from >= |m.channels| then Sweep(false, m, [], 0)
    else
      var s := Discover(m, from, bus);
      if s.outcome == Raised then Sweep(true, s.mgr, [], 0)
      else
        var rest := ScanAllChannels(s.mgr, bus, from + 1);
        var found := if s.outcome == Returned(true) then 1 else 0;
        assert rest.mgr.devices[..|m.devices|] == rest.mgr.devices[..|s.mgr.devices|][..|m.devices|];
        Sweep(rest.raised, rest.mgr, s.calls + rest.calls, found + rest.found)
  }

  /** Draining a channel keeps the manager invariant. */
  lemma {:induction false} DrainConsistent<O>(m: Manager<O>, ch: nat, buses: Buses, k: nat)
    requires ch < |m.channels| && Consistent(m)
    ensures Consistent(DrainChannel(m, ch, buses, k).mgr)
    decreases Room(m.channels[ch])
  {
    DiscoverConsistent(m, ch, buses(ch, k));
    var s := Discover(m, ch, buses(ch, k));
    if s.outcome == Returned(true) {
      DrainConsistent(s.mgr, ch, buses, k + 1);
      assert DrainChannel(m, ch, buses, k).mgr == DrainChannel(s.mgr, ch, buses, k + 1).mgr;
    } else {
      assert DrainChannel(m, ch, buses, k).mgr == s.mgr;
    }
  }

  /** The loop's normal exit: an attempt that finds the default address
      silent ends the drain without raising and changes nothing. */
  lemma DrainStopsWhenQuiet<O>(m: Manager<O>, ch: nat, buses: Buses, k: nat)
    requires ch < |m.channels| && !buses(ch, k).ack(ch, Protocol.DefaultAddr)
    ensures DrainChannel(m, ch, buses, k) == Sweep(false, m, [], 0)
  {
  }

  /** One peripheral on a fresh channel: the first attempt promotes it to
      the first allocatable address, the second finds the default address
      silent. The drain registers that one device, raises nothing and
      leaves the freed list empty. */
  lemma OnePeripheralDrain(ident: FriendBytes)
    ensures var buses: Buses := (c: nat, k: nat) => Bus(
        (ch: int, a: int) => if k == 0 then a == Protocol.DefaultAddr || a == FirstAddr else a == FirstAddr,
        (ch: int, a: int) => true,
        (ch: int, a: int) => Some(ident));
      var r := DrainChannel(NewManager<int>(1), 0, buses, 0);
      && !r.raised && r.found == 1
      && r.mgr.channels[0].active == {FirstAddr} && r.mgr.channels[0].freed == []
      && r.mgr.devices[0].addr == FirstAddr && RawCode(r.mgr.devices[0]) == ident
  {
    var buses: Buses := (c: nat, k: nat) => Bus(
        (ch: int, a: int) => if k == 0 then a == Protocol.DefaultAddr || a == FirstAddr else a == FirstAddr,
        (ch: int, a: int) => true,
        (ch: int, a: int) => Some(ident));
    var m := NewManager<int>(1);
    assert m.channels[0] == Fresh();
    var al := Allocate(Fresh());
    assert al.addr == Some(FirstAddr);
    var s := Discover(m, 0, buses(0, 0));
    assert s.outcome == Returned(true);
    assert s.mgr.channels[0] == Commit(al.state, FirstAddr);
    DrainStopsWhenQuiet(s.mgr, 0, buses, 1);
  }

  /** Initial discovery keeps the manager invariant. */
  lemma {:induction false} InitialDiscoveryConsistent<O>(m: Manager<O>, buses: Buses, from: nat)
    requires Consistent(m)
    ensures Consistent(InitialDiscovery(m, buses, from).mgr)
    decreases |m.channels| - from
  {
    if from < |m.channels| {
      DrainConsistent(m, from, buses, 0);
      var d := DrainChannel(m, from, buses, 0);
      if !d.raised {
        InitialDiscoveryConsistent(d.mgr, buses, from + 1);
      }
    }
  }

  /** A periodic discovery scan keeps the manager invariant. */
  lemma {:induction false} ScanAllConsistent<O>(m: Manager<O>, bus: Bus, from: nat)
    requires Consistent(m)
    ensures Consistent(ScanAllChannels(m, bus, from).mgr)
    decreases |m.channels| - from
  {
    if from < |m.channels| {
      DiscoverConsistent(m, from, bus);
      var s := Discover(m, from, bus);
      if s.outcome != Raised {
        ScanAllConsistent(s.mgr, bus, from + 1);
      }
    }
  }
}
