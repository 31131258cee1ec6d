/** The helping-hand board: it waits for one of four masters to raise its
    line, routes the bus to that master through the analog switch, opens the
    bus switches of the other lines, powers the bus through the PMOS switch,
    and sleeps for good. The pin traffic of `setup` is a trace of pin
    operations; each poll of the master lines is one sample of their four
    levels. */
module HelpingHand {
  import opened Common

  const AnalogSwA0: nat := 8
  const AnalogSwA1: nat := 9
  const MasterPmos: nat := 2

  /** `MASTER_LINES` and `SW_MUX_LINES`, in the same order. */
  const MasterLines: seq<nat> := [0, 1, 6, 3]
  const SwMuxLines: seq<nat> := [7, 10, 5, 4]

  /** `NUM_MASTERS`. */
  const NumMasters: nat := 4

  datatype Level = Low | High
  datatype Mode = Output | InputPullup

  /** One thing `setup` does to the pins. */
  datatype PinOp = SetMode(pin: nat, mode: Mode) | Write(pin: nat, level: Level) | Delay(ms: nat) | Sleep

  /** The levels of the four master lines in one poll, in `MASTER_LINES` order. */
  type Levels = s: seq<Level> | |s| == NumMasters witness [Low, Low, Low, Low]

  /** Every pin the board drives or reads, each named once. */
  lemma PinsDistinct()
    ensures var pins := [AnalogSwA0, AnalogSwA1, MasterPmos] + MasterLines + SwMuxLines;
      forall i, j :: 0 <= i < j < |pins| ==> pins[i] != pins[j]
    ensures |MasterLines| == |SwMuxLines| == NumMasters
  {
  }

  // ---------------------------------------------------------------------
  // Polling the master lines

  /** The first HIGH line of a poll, -1 when every line is LOW. */
  function FirstHigh(levels: seq<Level>): (r: int)
    ensures -1 <= r < |levels|
    ensures r == -1 <==> High !in levels
    ensures r >= 0 ==> levels[r] == High && High !in levels[..r]
  {
    if levels == [] then -1
    else if levels[0] == High then 0
    else
      var t := FirstHigh(levels[1..]);
      assert levels == [levels[0]] + levels[1..];
      if t == -1 then -1
      else
        assert levels[..t + 1] == [levels[0]] + levels[1..][..t];
        t + 1
  }

  /** A HIGH line with only LOW lines before it is the first HIGH line. */
  lemma FirstHighUnique(levels: seq<Level>, i: nat)
    requires i < |levels| && levels[i] == High && High !in levels[..i]
    ensures FirstHigh(levels) == i
  {
  }

  /** `getMasterLine`: the lines are read in order and the first HIGH one
      is returned; -1 when none is HIGH. */
  method GetMasterLine(levels: Levels) returns (r: int)
    ensures -1 <= r < NumMasters
    ensures r == -1 <==> High !in levels
    ensures r >= 0 ==> levels[r] == High && forall j :: 0 <= j < r ==> levels[j] == Low
    ensures r == FirstHigh(levels)
  {
    var i := 0;
    while i < NumMasters
      invariant 0 <= i <= NumMasters
      invariant forall j :: 0 <= j < i ==> levels[j] == Low
    {
      if levels[i] == High {
        assert High !in levels[..i];
        FirstHighUnique(levels, i);
        return i;
      }
      i := i + 1;
    }
    assert levels[..NumMasters] == levels;
    return -1;
  }

  /** How many polls find every line LOW before one finds a HIGH line;
      `|polls|` when none does. */
  function IdlePolls(polls: seq<Levels>): (k: nat)
    ensures k <= |polls|
    ensures forall j :: 0 <= j < k ==> High !in polls[j]
    ensures k < |polls| ==> High in polls[k]
  {
    if polls == [] then 0
    else if High in polls[0] then 0
    else
      var k := IdlePolls(polls[1..]);
      assert forall j :: 1 <= j < k + 1 ==> polls[j] == polls[1..][j - 1];
      1 + k
  }

  /** `waitForAnyMaster` over the polls it makes: the first HIGH line of
      the first poll that has one; `None` when no poll has one, where the
      board keeps waiting. */
  function WaitForAnyMaster(polls: seq<Levels>): (r: Option<nat>)
    ensures r.None? <==> forall k :: 0 <= k < |polls| ==> High !in polls[k]
    ensures r.Some? ==> r.value < NumMasters && var k := IdlePolls(polls);
      polls[k][r.value] == High && forall j :: 0 <= j < r.value ==> polls[k][j] == Low
  {
    var k := IdlePolls(polls);
    if k == |polls| then None
    else
      var line := FirstHigh(polls[k]);
      assert forall j :: 0 <= j < line ==> polls[k][..line][j] == polls[k][j];
      Some(line)
  }

  // ---------------------------------------------------------------------
  // The analog switch

  /** `digitalWrite` of a bit: nonzero drives HIGH. */
  function Bit(b: nat): Level {
    if b == 0 then Low else High
  }

  /** `comsAnalogSwitch`: A0 takes bit 0 of the channel, A1 bit 1. */
  function ComsAnalogSwitch(channel: byte): (r: seq<PinOp>)
    ensures |r| == 2 && r[0].Write? && r[0].pin == AnalogSwA0 && r[1].Write? && r[1].pin == AnalogSwA1
  {
    [Write(AnalogSwA0, Bit(channel % 2)), Write(AnalogSwA1, Bit(channel / 2 % 2))]
  }

  /** The channel the analog switch selects for its two select levels. */
  function Selected(a0: Level, a1: Level): (ch: nat)
    ensures ch < 4
  {
    (if a1 == High then 2 else 0) + (if a0 == High then 1 else 0)
  }

  /** Each of the four master lines has its own pair of select levels: the
      switch selects exactly the channel written. */
  lemma SwitchSelects(channel: byte)
    requires channel < NumMasters
    ensures var ops := ComsAnalogSwitch(channel); Selected(ops[0].level, ops[1].level) == channel
  {
  }

  // ---------------------------------------------------------------------
  // Setup

  /** The `pinMode` calls. */
  function Modes(): seq<PinOp> {
    [SetMode(AnalogSwA0, Output), SetMode(AnalogSwA1, Output)]
    + seq(NumMasters, i requires 0 <= i < NumMasters => SetMode(MasterLines[i], InputPullup))
    + seq(NumMasters, i requires 0 <= i < NumMasters => SetMode(SwMuxLines[i], Output))
    + [SetMode(MasterPmos, Output)]
  }

  /** Every bus switch closed, so nothing goes back to its origin. */
  function CloseAll(): seq<PinOp> {
    seq(NumMasters, i requires 0 <= i < NumMasters => Write(SwMuxLines[i], Low))
  }

  /** The `delay(10)` after each poll that found no HIGH line. */
  function Waits(k: nat): (r: seq<PinOp>)
    ensures |r| == k && forall j :: 0 <= j < k ==> r[j] == Delay(10)
  {
    seq(k, j => Delay(10))
  }

  /** The loop over the bus switches: every one but the chosen line's is
      opened, the chosen one is written closed again. */
  function OpenOthers(chosen: nat): seq<PinOp> {
    seq(NumMasters, i requires 0 <= i < NumMasters => Write(SwMuxLines[i], if i == chosen then Low else High))
  }

  /** What `setup` did, and the line it routed to (`None` while it is still
      waiting for a master). */
  datatype SetupRun = SetupRun(trace: seq<PinOp>, chosen: Option<nat>)

  /** Everything up to and including the polls. */
  function Prelude(idle: nat): seq<PinOp> {
    Modes() + [Delay(10)] + CloseAll() + Waits(idle)
  }

  /** Everything after the line is chosen. */
  function Route(chosen: byte): seq<PinOp> {
    ComsAnalogSwitch(chosen) + OpenOthers(chosen) + [Delay(500), Write(MasterPmos, High), Sleep]
  }

  /** `setup` over the polls of the master lines. */
  function Setup(polls: seq<Levels>): (run: SetupRun)
    ensures run.chosen == WaitForAnyMaster(polls)
  {
    match WaitForAnyMaster(polls)
    case None => SetupRun(Prelude(|polls|), None)
    case Some(c) => SetupRun(Prelude(IdlePolls(polls)) + Route(c), Some(c))
  }

  // ---------------------------------------------------------------------
  // Pin levels after a trace

  predicate Writes(op: PinOp, pin: nat) {
    op.Write? && op.pin == pin
  }

  /** The level a trace leaves on a pin: its last write, `None` if none. */
  function LevelAfter(trace: seq<PinOp>, pin: nat): Option<Level>
    decreases |trace|
  {
    if trace == [] then None
    else
      var rest := LevelAfter(trace[1..], pin);
      if rest.Some? then rest
      else if Writes(trace[0], pin) then Some(trace[0].level)
      else None
  }

  /** A write with no later write to the same pin decides its level. */
  lemma {:induction false} LastWriteWins(trace: seq<PinOp>, pin: nat, j: nat)
    requires j < |trace| && Writes(trace[j], pin)
    requires forall m :: j < m < |trace| ==> !Writes(trace[m], pin)
    ensures LevelAfter(trace, pin) == Some(trace[j].level)
    decreases |trace|
  {
    if j == 0 {
      NeverWritten(trace[1..], pin);
    } else {
      assert forall m :: j - 1 < m < |trace[1..]| ==> trace[1..][m] == trace[m + 1];
      LastWriteWins(trace[1..], pin, j - 1);
    }
  }

  /** A pin the trace never writes has no level from it. */
  lemma {:induction false} NeverWritten(trace: seq<PinOp>, pin: nat)
    requires forall m :: 0 <= m < |trace| ==> !Writes(trace[m], pin)
    ensures LevelAfter(trace, pin) == None
    decreases |trace|
  {
    if trace != [] {
      assert forall m :: 0 <= m < |trace[1..]| ==> trace[1..][m] == trace[m + 1];
      NeverWritten(trace[1..], pin);
    }
  }

  /** A later trace's writes override an earlier one's. */
  lemma {:induction false} LevelAfterAppend(a: seq<PinOp>, b: seq<PinOp>, pin: nat)
    ensures LevelAfter(a + b, pin) == if LevelAfter(b, pin).Some? then LevelAfter(b, pin) else LevelAfter(a, pin)
    decreases |a|
  {
    if a != [] {
      assert (a + b)[1..] == a[1..] + b;
      LevelAfterAppend(a[1..], b, pin);
    } else {
      assert a + b == b;
    }
  }

  lemma MuxIndex(i: int)
    requires 0 <= i < NumMasters
    ensures SwMuxLines[i] !in {AnalogSwA0, AnalogSwA1, MasterPmos}
    ensures forall j :: 0 <= j < NumMasters && j != i ==> SwMuxLines[j] != SwMuxLines[i]
  {
    assert i == 0 || i == 1 || i == 2 || i == 3;
  }

  /** The route leaves the analog switch on the chosen channel, the chosen
      line's bus switch closed and every other one open, and the PMOS switch
      on. */
  lemma RouteLevels(c: byte)
    requires c < NumMasters
    ensures LevelAfter(Route(c), AnalogSwA0) == Some(Bit(c % 2))
    ensures LevelAfter(Route(c), AnalogSwA1) == Some(Bit(c / 2 % 2))
    ensures forall i :: 0 <= i < NumMasters ==>
      LevelAfter(Route(c), SwMuxLines[i]) == Some(if i == c then Low else High)
    ensures LevelAfter(Route(c), MasterPmos) == Some(High)
  {
    var t := Route(c);
    assert |t| == 9;
    assert forall m :: 2 <= m < 6 ==> t[m] == Write(SwMuxLines[m - 2], if m - 2 == c then Low else High);
    assert t[6] == Delay(500) && t[7] == Write(MasterPmos, High) && t[8] == Sleep;
    forall i | 0 <= i < NumMasters
      ensures LevelAfter(t, SwMuxLines[i]) == Some(if i == c then Low else High)
    {
      MuxIndex(i);
      LastWriteWins(t, SwMuxLines[i], i + 2);
    }
    MuxIndex(0);
    MuxIndex(1);
    MuxIndex(2);
    MuxIndex(3);
    LastWriteWins(t, AnalogSwA0, 0);
    LastWriteWins(t, AnalogSwA1, 1);
    LastWriteWins(t, MasterPmos, 7);
  }

  /** The prelude never touches the PMOS switch and leaves every bus switch
      closed. */
  lemma PreludeLevels(idle: nat)
    ensures LevelAfter(Prelude(idle), MasterPmos) == None
    ensures forall i :: 0 <= i < NumMasters ==> LevelAfter(Prelude(idle), SwMuxLines[i]) == Some(Low)
  {
    var p := Prelude(idle);
    var head := Modes() + [Delay(10)];
    assert |Modes()| == 11;
    assert forall m :: 0 <= m < |head| ==> !head[m].Write?;
    assert forall m :: 0 <= m < |Waits(idle)| ==> !Waits(idle)[m].Write?;
    NeverWritten(head, MasterPmos);
    NeverWritten(CloseAll(), MasterPmos) by {
      forall m | 0 <= m < NumMasters ensures !Writes(CloseAll()[m], MasterPmos) {
        MuxIndex(m);
      }
    }
    NeverWritten(Waits(idle), MasterPmos);
    LevelAfterAppend(head, CloseAll(), MasterPmos);
    LevelAfterAppend(head + CloseAll(), Waits(idle), MasterPmos);
    forall i | 0 <= i < NumMasters
      ensures LevelAfter(p, SwMuxLines[i]) == Some(Low)
    {
      MuxIndex(i);
      LastWriteWins(CloseAll(), SwMuxLines[i], i);
      NeverWritten(Waits(idle), SwMuxLines[i]);
      LevelAfterAppend(head, CloseAll(), SwMuxLines[i]);
      LevelAfterAppend(head + CloseAll(), Waits(idle), SwMuxLines[i]);
    }
  }

  /** Once a master raises its line, `setup` routes the bus to that master
      alone: the analog switch selects its channel, its bus switch is the
      only one closed, the PMOS switch is on, and the board then sleeps. */
  lemma SetupRoutesToChosen(polls: seq<Levels>)
    requires Setup(polls).chosen.Some?
    ensures var run := Setup(polls); var c := run.chosen.value;
      && c < NumMasters
      && LevelAfter(run.trace, AnalogSwA0).Some? && LevelAfter(run.trace, AnalogSwA1).Some?
      && Selected(LevelAfter(run.trace, AnalogSwA0).value, LevelAfter(run.trace, AnalogSwA1).value) == c
      && (forall i :: 0 <= i < NumMasters ==>
            LevelAfter(run.trace, SwMuxLines[i]) == Some(if i == c then Low else High))
      && LevelAfter(run.trace, MasterPmos) == Some(High)
      && run.trace[|run.trace| - 1] == Sleep
  {
    var c := Setup(polls).chosen.value;
    var p := Prelude(IdlePolls(polls));
    RouteLevels(c);
    LevelAfterAppend(p, Route(c), AnalogSwA0);
    LevelAfterAppend(p, Route(c), AnalogSwA1);
    LevelAfterAppend(p, Route(c), MasterPmos);
    forall i | 0 <= i < NumMasters
      ensures LevelAfter(p + Route(c), SwMuxLines[i]) == Some(if i == c then Low else High)
    {
      LevelAfterAppend(p, Route(c), SwMuxLines[i]);
    }
  }

  /** The PMOS switch is turned on only after every bus switch and the
      analog switch are set: its one write is the last before sleeping. */
  lemma PmosLast(polls: seq<Levels>)
    requires Setup(polls).chosen.Some?
    ensures var t := Setup(polls).trace;
      && |t| >= 2 && t[|t| - 2] == Write(MasterPmos, High)
      && forall m :: 0 <= m < |t| - 2 ==> !Writes(t[m], MasterPmos)
  {
    var c := Setup(polls).chosen.value;
    var p := Prelude(IdlePolls(polls));
    var t := p + Route(c);
    assert |Modes()| == 11;
    forall m | 0 <= m < |t| - 2
      ensures !Writes(t[m], MasterPmos)
    {
      if m < |p| {
        assert t[m] == p[m];
        if 16 <= m {
          assert p[m] == Delay(10);
        } else if 12 <= m {
          MuxIndex(m - 12);
        }
      } else {
        assert t[m] == Route(c)[m - |p|];
        if 2 <= m - |p| < 6 {
          MuxIndex(m - |p| - 2);
        }
      }
    }
  }

  /** While no master has raised its line the bus stays unpowered and
      every bus switch closed. */
  lemma WaitingKeepsBusOff(polls: seq<Levels>)
    requires Setup(polls).chosen.None?
    ensures LevelAfter(Setup(polls).trace, MasterPmos) == None
    ensures forall i :: 0 <= i < NumMasters ==> LevelAfter(Setup(polls).trace, SwMuxLines[i]) == Some(Low)
  {
    PreludeLevels(|polls|);
  }

  // ---------------------------------------------------------------------
  // Timing

  /** Milliseconds of `delay` in a trace. */
  function Elapsed(trace: seq<PinOp>): nat
    decreases |trace|
  {
    if trace == [] then 0
    else (if trace[0].Delay? then trace[0].ms else 0) + Elapsed(trace[1..])
  }

  lemma {:induction false} ElapsedAppend(a: seq<PinOp>, b: seq<PinOp>)
    ensures Elapsed(a + b) == Elapsed(a) + Elapsed(b)
    decreases |a|
  {
    if a == [] {
      assert a + b == b;
    } else {
      assert (a + b)[0] == a[0] && (a + b)[1..] == a[1..] + b;
      ElapsedAppend(a[1..], b);
    }
  }

  lemma {:induction false} ElapsedNoDelay(trace: seq<PinOp>)
    requires forall i :: 0 <= i < |trace| ==> !trace[i].Delay?
    ensures Elapsed(trace) == 0
    decreases |trace|
  {
    if trace != [] {
      assert !trace[0].Delay?;
      ElapsedNoDelay(trace[1..]);
    }
  }

  lemma {:induction false} WaitsTake(k: nat)
    ensures Elapsed(Waits(k)) == 10 * k
    decreases k
  {
    if k > 0 {
      assert Waits(k) == [Delay(10)] + Waits(k - 1);
      WaitsTake(k - 1);
    }
  }

  lemma PreludeTakes(idle: nat)
    ensures Elapsed(Prelude(idle)) == 10 + 10 * idle
  {
    ElapsedNoDelay(Modes());
    ElapsedNoDelay(CloseAll());
    WaitsTake(idle);
    assert Elapsed([Delay(10)]) == 10;
    ElapsedAppend(Modes(), [Delay(10)]);
    ElapsedAppend(Modes() + [Delay(10)], CloseAll());
    ElapsedAppend(Modes() + [Delay(10)] + CloseAll(), Waits(idle));
  }

  lemma RouteTakes(c: byte)
    ensures Elapsed(Route(c)) == 500
  {
    var tail: seq<PinOp> := [Delay(500), Write(MasterPmos, High), Sleep];
    ElapsedNoDelay(ComsAnalogSwitch(c));
    ElapsedNoDelay(OpenOthers(c));
    assert tail[1..][1..][1..] == [];
    assert Elapsed(tail[1..][1..]) == 0;
    assert Elapsed(tail) == 500;
    ElapsedAppend(ComsAnalogSwitch(c), OpenOthers(c));
    ElapsedAppend(ComsAnalogSwitch(c) + OpenOthers(c), tail);
  }

  /** `setup` waits 10 ms for the master lines to settle, then 10 ms after
      each poll that saw no master; once a line is chosen it waits 500 ms
      more before driving the PMOS. */
  lemma SetupTiming(polls: seq<Levels>)
    ensures Setup(polls).chosen.None? ==> Elapsed(Setup(polls).trace) == 10 + 10 * |polls|
    ensures Setup(polls).chosen.Some? ==> Elapsed(Setup(polls).trace) == 10 + 10 * IdlePolls(polls) + 500
  {
    match WaitForAnyMaster(polls)
    case None =>
      PreludeTakes(|polls|);
    case Some(c) =>
      var idle := IdlePolls(polls);
      PreludeTakes(idle);
      RouteTakes(c);
      ElapsedAppend(Prelude(idle), Route(c));
  }
}
