/** The bookkeeping both host drivers share (`KnobModule`, `SliderModule`):
    the adopted devices in adoption order, each with its unit count (encoders
    or sliders); the lookup from friend code to unit count; the running
    global unit count; and the position-derived global index of a unit. */
module UnitRegistry {
  import opened Common
  import opened TwiDevice

  /** An adopted device: the driver's own device record, its number of
      units and the driver's per-device state. */
  datatype Unit<S> = Unit(dev: Device, count: nat, state: S)

  /** A driver's registry. `lookup` maps friend codes to unit counts and
      `total` is the global unit count. */
  datatype Registry<S> = Registry(units: seq<Unit<S>>, lookup: map<string, nat>, total: int)

  /** A driver as constructed: nothing adopted, an empty lookup, a zero
      count. */
  function EmptyRegistry<S>(): (r: Registry<S>)
    ensures r.units == [] && |r.lookup| == 0 && r.total == 0
  {
    Registry([], map[], 0)
  }

  // ---------------------------------------------------------------------
  // Membership

  /** The position of the first unit equal to `d` (same address and
      channel), or the number of units when there is none. */
  function FirstMatch<S>(units: seq<Unit<S>>, d: Device): (i: nat)
    ensures i <= |units|
    ensures forall j :: 0 <= j < i ==> !SameDevice(units[j].dev, d)
    ensures i < |units| ==> SameDevice(units[i].dev, d)
  {
    if units == [] then 0
    else if SameDevice(units[0].dev, d) then 0
    else 1 + FirstMatch(units[1..], d)
  }

  /** `device in self.devices`. */
  predicate Holds<S>(units: seq<Unit<S>>, d: Device) {
    exists i :: 0 <= i < |units| && SameDevice(units[i].dev, d)
  }

  lemma HoldsFirstMatch<S>(units: seq<Unit<S>>, d: Device)
    ensures Holds(units, d) <==> FirstMatch(units, d) < |units|
  {
  }

  /** No two adopted devices share an address on a channel. */
  predicate DistinctUnits<S>(units: seq<Unit<S>>) {
    forall i, j :: 0 <= i < j < |units| ==> !SameDevice(units[i].dev, units[j].dev)
  }

  /** `list.remove`: drop the unit at position `i`. */
  function RemoveUnit<S>(units: seq<Unit<S>>, i: nat): (r: seq<Unit<S>>)
    requires i < |units|
    ensures |r| == |units| - 1
    ensures forall j :: 0 <= j < i ==> r[j] == units[j]
    ensures forall j :: i <= j < |r| ==> r[j] == units[j + 1]
  {
    units[..i] + units[i + 1..]
  }

  // ---------------------------------------------------------------------
  // The lookup and the global count

  /** Sum of the unit counts recorded in a lookup. */
  ghost function MapSum(m: map<string, nat>): nat
    decreases |m|
  {
    if |m| == 0 then 0
    else
      var k :| k in m;
      assert |m - {k}| == |m| - 1 by { assert (m - {k}).Keys == m.Keys - {k}; }
      m[k] + MapSum(m - {k})
  }

  /** Removing a present key shrinks a map by one. */
  lemma RemoveShrinks(m: map<string, nat>, k: string)
    requires k in m
    ensures |m - {k}| == |m| - 1
  {
    assert (m - {k}).Keys == m.Keys - {k};
  }

  /** The key `MapSum` takes out first. */
  lemma MapSumUnfold(m: map<string, nat>) returns (j: string)
    requires |m| > 0
    ensures j in m && MapSum(m) == m[j] + MapSum(m - {j})
  {
    j :| j in m && MapSum(m) == m[j] + MapSum(m - {j});
  }

  /** Any key can be taken out first. */
  lemma {:induction false} MapSumRemove(m: map<string, nat>, k: string)
    requires k in m
    ensures MapSum(m) == m[k] + MapSum(m - {k})
    decreases |m|
  {
    var j := MapSumUnfold(m);
    if j != k {
      RemoveShrinks(m, j);
      RemoveShrinks(m, k);
      var mj := m - {j};
      var mk := m - {k};
      assert k in mj && j in mk;
      MapSumRemove(mj, k);
      MapSumRemove(mk, j);
      assert mj - {k} == mk - {j};
      assert mj[k] == m[k] && mk[j] == m[j];
    }
  }

  /** Overwriting or inserting a key. */
  lemma MapSumUpdate(m: map<string, nat>, k: string, v: nat)
    ensures MapSum(m[k := v]) == MapSum(m - {k}) + v
    ensures k in m ==> MapSum(m[k := v]) == MapSum(m) - m[k] + v
    ensures k !in m ==> MapSum(m[k := v]) == MapSum(m) + v
  {
    var u := m[k := v];
    MapSumRemove(u, k);
    UpdateThenRemove(m, k, v);
    if k in m {
      MapSumRemove(m, k);
    } else {
      RemoveAbsent(m, k);
    }
  }

  lemma UpdateThenRemove(m: map<string, nat>, k: string, v: nat)
    ensures k in m[k := v] && m[k := v][k] == v && m[k := v] - {k} == m - {k}
  {
  }

  lemma RemoveAbsent(m: map<string, nat>, k: string)
    requires k !in m
    ensures m - {k} == m
  {
  }

  /** The global count equals the sum of the recorded counts. */
  ghost predicate TotalMatches<S>(r: Registry<S>) {
    r.total == MapSum(r.lookup)
  }

  /** The global count is at least the sum of the recorded counts. */
  ghost predicate TotalCovers<S>(r: Registry<S>) {
    r.total >= MapSum(r.lookup)
  }

  // ---------------------------------------------------------------------
  // Adoption and removal

  /** The tail of a new-device callback once the device is accepted:
      record the count under the registry device's friend code, add it to
      the global count and append the unit. */
  function Adopt<S>(r: Registry<S>, code: string, u: Unit<S>): Registry<S> {
    Registry(r.units + [u], r.lookup[code := u.count], r.total + u.count)
  }

  /** The removed-device callback: when a unit equal to `d` is held, pop
      the count recorded under `d`'s friend code (subtracting it from the
      global count when there was one) and remove the first equal unit;
      otherwise nothing happens. */
  function Drop<S>(r: Registry<S>, d: Device): (r': Registry<S>)
    ensures !Holds(r.units, d) ==> r' == r
    ensures Holds(r.units, d) ==>
      && r'.units == RemoveUnit(r.units, FirstMatch(r.units, d))
      && FriendCode(d) !in r'.lookup
      && (forall k :: k != FriendCode(d) ==> (k in r'.lookup <==> k in r.lookup))
      && (forall k :: k in r'.lookup ==> r'.lookup[k] == r.lookup[k])
      && r'.total == r.total - (if FriendCode(d) in r.lookup then r.lookup[FriendCode(d)] else 0)
  {
    var i := FirstMatch(r.units, d);
    if i == |r.units| then r
    else
      var code := FriendCode(d);
      if code in r.lookup then
        Registry(RemoveUnit(r.units, i), r.lookup - {code}, r.total - r.lookup[code])
      else
        Registry(RemoveUnit(r.units, i), r.lookup, r.total)
  }

  /** Adopting under a friend code not yet recorded keeps the count equal
      to the recorded sum. */
  lemma AdoptKeepsTotal<S>(r: Registry<S>, code: string, u: Unit<S>)
    requires TotalMatches(r) && code !in r.lookup
    ensures TotalMatches(Adopt(r, code, u))
  {
    MapSumUpdate(r.lookup, code, u.count);
  }

  /** Whatever the friend code, adoption never lets the recorded sum
      overtake the global count. */
  lemma AdoptKeepsCover<S>(r: Registry<S>, code: string, u: Unit<S>)
    requires TotalCovers(r)
    ensures TotalCovers(Adopt(r, code, u))
  {
    MapSumUpdate(r.lookup, code, u.count);
  }

  /** Removal keeps the count equal to the recorded sum. */
  lemma DropKeepsTotal<S>(r: Registry<S>, d: Device)
    requires TotalMatches(r)
    ensures TotalMatches(Drop(r, d))
  {
    var code := FriendCode(d);
    if Holds(r.units, d) && code in r.lookup {
      MapSumRemove(r.lookup, code);
    }
  }

  /** Removal never lets the recorded sum overtake the global count. */
  lemma DropKeepsCover<S>(r: Registry<S>, d: Device)
    requires TotalCovers(r)
    ensures TotalCovers(Drop(r, d))
  {
    var code := FriendCode(d);
    if Holds(r.units, d) && code in r.lookup {
      MapSumRemove(r.lookup, code);
    }
  }

  /** Adopting a second device under a friend code already recorded breaks
      the equality: the count grows by the new unit count while the lookup
      only replaces the old one. */
  lemma ReadoptionDrifts<S>(r: Registry<S>, code: string, u: Unit<S>)
    requires TotalMatches(r) && code in r.lookup && r.lookup[code] > 0
    ensures !TotalMatches(Adopt(r, code, u))
    ensures Adopt(r, code, u).total == MapSum(Adopt(r, code, u).lookup) + r.lookup[code]
  {
    MapSumUpdate(r.lookup, code, u.count);
  }

  /** Removal of a held device takes exactly one unit equal to it; when no
      two held units are equal, a repeated removal changes nothing. */
  lemma DropOnce<S>(r: Registry<S>, d: Device)
    requires DistinctUnits(r.units)
    ensures !Holds(Drop(r, d).units, d)
    ensures Drop(Drop(r, d), d) == Drop(r, d)
  {
    if Holds(r.units, d) {
      var i := FirstMatch(r.units, d);
      var rest := Drop(r, d).units;
      forall j | 0 <= j < |rest|
        ensures !SameDevice(rest[j].dev, d)
      {
        if j >= i {
          assert rest[j] == r.units[j + 1];
          assert !SameDevice(r.units[i].dev, r.units[j + 1].dev);
        }
      }
    }
  }

  // ---------------------------------------------------------------------
  // Global unit index

  /** The loop of `get_knob_index` / `get_midi_index`: the unit counts of
      the devices before the first one equal to `d`, stopping there. */
  function CountsBefore<S>(units: seq<Unit<S>>, d: Device): (n: nat)
  {
    if units == [] then 0
    else if SameDevice(units[0].dev, d) then 0
    else units[0].count + CountsBefore(units[1..], d)
  }

  /** The global index of unit `local` of device `d`. */
  function UnitIndex<S>(units: seq<Unit<S>>, d: Device, local: int): int {
    CountsBefore(units, d) + local
  }

  /** Total unit count of a sequence of devices. */
  function SumCounts<S>(units: seq<Unit<S>>): nat {
    if units == [] then 0 else SumCounts(units[..|units| - 1]) + units[|units| - 1].count
  }

  lemma {:induction false} SumCountsAppend<S>(a: seq<Unit<S>>, b: seq<Unit<S>>)
    ensures SumCounts(a + b) == SumCounts(a) + SumCounts(b)
    decreases |b|
  {
    if b == [] {
      assert a + b == a;
    } else {
      assert (a + b)[..|a + b| - 1] == a + b[..|b| - 1];
      SumCountsAppend(a, b[..|b| - 1]);
    }
  }

  /** The index loop sums exactly the devices before the first equal one. */
  lemma {:induction false} CountsBeforePrefix<S>(units: seq<Unit<S>>, d: Device)
    ensures CountsBefore(units, d) == SumCounts(units[..FirstMatch(units, d)])
  {
    if units != [] && !SameDevice(units[0].dev, d) {
      CountsBeforePrefix(units[1..], d);
      var i := FirstMatch(units, d);
      assert units[..i] == [units[0]] + units[1..][..i - 1];
      SumCountsAppend([units[0]], units[1..][..i - 1]);
      assert SumCounts([units[0]]) == units[0].count by {
        assert [units[0]][..0] == [];
      }
    }
  }

  /** The first device's global indices are its local indices. */
  lemma FirstDeviceIndex<S>(units: seq<Unit<S>>, d: Device, local: int)
    requires |units| > 0 && SameDevice(units[0].dev, d)
    ensures UnitIndex(units, d, local) == local
  {
  }

  /** Removing a device held before `d` shifts `d`'s indices down by that
      device's unit count. */
  lemma {:induction false} RemoveEarlierShifts<S>(units: seq<Unit<S>>, d: Device, j: nat)
    requires j < FirstMatch(units, d)
    ensures CountsBefore(RemoveUnit(units, j), d) == CountsBefore(units, d) - units[j].count
  {
    var r := RemoveUnit(units, j);
    if j == 0 {
      assert r == units[1..];
    } else {
      assert r[0] == units[0];
      assert r[1..] == RemoveUnit(units[1..], j - 1);
      RemoveEarlierShifts(units[1..], d, j - 1);
    }
  }

  /** Removing a device held after the first match leaves `d`'s indices
      alone, and so does appending a newly adopted device. */
  lemma {:induction false} RemoveLaterKeeps<S>(units: seq<Unit<S>>, d: Device, j: nat)
    requires FirstMatch(units, d) < j < |units|
    ensures CountsBefore(RemoveUnit(units, j), d) == CountsBefore(units, d)
  {
    var r := RemoveUnit(units, j);
    if !SameDevice(units[0].dev, d) {
      assert r[0] == units[0];
      assert r[1..] == RemoveUnit(units[1..], j - 1);
      RemoveLaterKeeps(units[1..], d, j - 1);
    }
  }

  lemma {:induction false} AppendKeeps<S>(units: seq<Unit<S>>, d: Device, u: Unit<S>)
    requires FirstMatch(units, d) < |units|
    ensures CountsBefore(units + [u], d) == CountsBefore(units, d)
  {
    if !SameDevice(units[0].dev, d) {
      assert (units + [u])[1..] == units[1..] + [u];
      AppendKeeps(units[1..], d, u);
    }
  }

  /** With no two held devices equal, the global index blocks of the held
      devices are disjoint and follow the adoption order: a later device's
      first index comes after every index of an earlier one. */
  lemma {:induction false} IndexBlocksOrdered<S>(units: seq<Unit<S>>, i: nat, j: nat)
    requires DistinctUnits(units) && i < j < |units|
    ensures CountsBefore(units, units[i].dev) + units[i].count <= CountsBefore(units, units[j].dev)
  {
    if i == 0 {
      assert !SameDevice(units[0].dev, units[j].dev);
      assert CountsBefore(units, units[0].dev) == 0;
    } else {
      assert !SameDevice(units[0].dev, units[i].dev) && !SameDevice(units[0].dev, units[j].dev);
      assert units[1..][i - 1] == units[i] && units[1..][j - 1] == units[j];
      IndexBlocksOrdered(units[1..], i - 1, j - 1);
    }
  }
}
