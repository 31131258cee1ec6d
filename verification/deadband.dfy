/** The change gate both sides apply to slider levels: a new reading is
    accepted only when it differs from the last accepted one by strictly
    more than a width, and only an accepted reading moves the reference. */
module Deadband {
  import opened Common

  /** One gated reading: whether it is accepted, and the reference
      afterwards. */
  datatype Gated = Gated(accepted: bool, last: int)

  /** One reading through the gate. Whatever the reading, the reference
      afterwards is within the width of it. */
  function Gate(last: int, reading: int, width: nat): (g: Gated)
    ensures g.accepted <==> Abs(last - reading) > width
    ensures g.last == if g.accepted then reading else last
    ensures Dist(g.last, reading) <= width
  {
    if Abs(last - reading) > width then Gated(true, reading) else Gated(false, last)
  }

  /** The reference after gating a series of readings in turn. */
  function GateAll(last: int, readings: seq<int>, width: nat): int
    decreases |readings|
  {
    if readings == [] then last
    else GateAll(Gate(last, readings[0], width).last, readings[1..], width)
  }

  /** How many readings of a series are accepted. */
  function Accepted(last: int, readings: seq<int>, width: nat): nat
    decreases |readings|
  {
    if readings == [] then 0
    else
      var g := Gate(last, readings[0], width);
      (if g.accepted then 1 else 0) + Accepted(g.last, readings[1..], width)
  }

  /** Drift never accumulates: readings that each stay within the width of
      the reference are all rejected, however many there are and however
      they wander, and the reference never moves. */
  lemma {:induction false} NoDrift(last: int, readings: seq<int>, width: nat)
    requires forall i :: 0 <= i < |readings| ==> Abs(last - readings[i]) <= width
    ensures Accepted(last, readings, width) == 0
    ensures GateAll(last, readings, width) == last
    decreases |readings|
  {
    if readings != [] {
      NoDrift(last, readings[1..], width);
    }
  }

  /** Once the reference is fixed, a reading is accepted exactly when it
      leaves the band, and then it becomes the reference. */
  lemma {:induction false} FirstEscape(last: int, readings: seq<int>, width: nat, k: nat)
    requires k < |readings| && Abs(last - readings[k]) > width
    requires forall i :: 0 <= i < k ==> Abs(last - readings[i]) <= width
    ensures Accepted(last, readings, width) >= 1
    ensures GateAll(last, readings[..k + 1], width) == readings[k]
    decreases k
  {
    if k == 0 {
      assert readings[..1][1..] == [];
    } else {
      assert readings[..k + 1][1..] == readings[1..][..k];
      FirstEscape(last, readings[1..], width, k - 1);
    }
  }
}
