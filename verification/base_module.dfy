/** What every host driver shares (`BaseModule`): the module type it
    adopts, its registration with the manager, and the keyboard it is
    handed at boot. */
module BaseModule {
  import opened Common
  import Protocol
  import opened TwiManager

  /** `ModuleType`: the two kinds of peripheral a driver can adopt. */
  datatype ModuleType = Knobs | Sliders

  /** `target_type_id`: the single element of the enum value's tuple. */
  function TypeId(t: ModuleType): byte {
    match t
    case Knobs => 0x01
    case Sliders => 0x02
  }

  /** The host's type ids are the ones the firmware puts first in its
      friend code, and they tell the two kinds apart. */
  lemma TypeIdsMatchFirmware()
    ensures TypeId(Knobs) == Protocol.ModKnobs && TypeId(Sliders) == Protocol.ModSliders
    ensures forall s, t :: TypeId(s) == TypeId(t) <==> s == t
  {
  }

  /** The keyboard as a driver sees it: its `active_layers`, the current
      one first (Firmware/Macropad/kmk/kmk_keyboard.py:33, :74). It has no attribute
      `active_layer`. */
  datatype Keyboard = Keyboard(activeLayers: seq<int>)

  /** The part of a driver's state `BaseModule` owns besides the device
      list: the type it adopts and the keyboard, unset until boot. */
  datatype Shell = Shell(target: ModuleType, keyboard: Option<Keyboard>)

  /** A freshly constructed driver has no keyboard yet. */
  function NewShell(t: ModuleType): (s: Shell)
    ensures s.target == t && s.keyboard.None?
  {
    Shell(t, None)
  }

  /** `during_bootup`: the keyboard is stored before the driver's own boot
      hook runs, so the hook already sees it. */
  function DuringBootup(s: Shell, kb: Keyboard): (r: Shell)
    ensures r.keyboard == Some(kb) && r.target == s.target
  {
    s.(keyboard := Some(kb))
  }

  /** The constructor's registration with the manager: one new-device
      callback and one removal callback, each after the ones already
      registered. */
  function Register(m: Manager<ModuleType>, t: ModuleType): (r: Manager<ModuleType>)
    ensures r.channels == m.channels && r.devices == m.devices
    ensures |r.onNew| == |m.onNew| + 1 && r.onNew[..|m.onNew|] == m.onNew && r.onNew[|m.onNew|] == t
    ensures |r.onRemoved| == |m.onRemoved| + 1 && r.onRemoved[..|m.onRemoved|] == m.onRemoved && r.onRemoved[|m.onRemoved|] == t
  {
    AddRemovalCallback(AddDeviceCallback(m, t), t)
  }

  /** After registering, the module hears every later notice exactly once
      more than before, and no other observer's share changes. */
  lemma RegisterHearsOnce(m: Manager<ModuleType>, t: ModuleType, n: Notice, o: ModuleType)
    ensures multiset(Notify(Register(m, t).onNew, n))[Call(o, n)]
         == multiset(Notify(m.onNew, n))[Call(o, n)] + (if o == t then 1 else 0)
    ensures multiset(Notify(Register(m, t).onRemoved, n))[Call(o, n)]
         == multiset(Notify(m.onRemoved, n))[Call(o, n)] + (if o == t then 1 else 0)
  {
    var r := Register(m, t);
    NotifyCount(r.onNew, n, o, n);
    NotifyCount(m.onNew, n, o, n);
    NotifyCount(r.onRemoved, n, o, n);
    NotifyCount(m.onRemoved, n, o, n);
    assert multiset(r.onNew) == multiset(m.onNew) + multiset{t};
    assert multiset(r.onRemoved) == multiset(m.onRemoved) + multiset{t};
  }

  /** A driver registered on a manager with no observers is then the only
      one: every notice reaches it exactly once. */
  lemma RegisterAlone(m: Manager<ModuleType>, t: ModuleType, n: Notice)
    requires m.onNew == [] && m.onRemoved == []
    ensures Notify(Register(m, t).onNew, n) == [Call(t, n)]
    ensures Notify(Register(m, t).onRemoved, n) == [Call(t, n)]
  {
  }
}
