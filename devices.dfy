/** The translation of (key, value) pad events into low-level input-device
    emissions (virtualpad/pads/devices.py). The device itself is a foreign
    library; here it is a name plus the log of everything emitted on it. */
module Devices {
  import opened Base

  // Buttons carry 0 or 1.
  const BtnNorth := 0
  const BtnEast := 1
  const BtnSouth := 2
  const BtnWest := 3
  const BtnL1 := 4
  const BtnR1 := 5
  const BtnL2 := 6
  const BtnR2 := 7
  const BtnSelect := 8
  const BtnStart := 9
  const BtnUp := 10
  const BtnDown := 11
  const BtnLeft := 12
  const BtnRight := 13
  const NButtons := 14
  // Axes carry 0 .. 255.
  const AbsX := 14
  const AbsY := 15
  const AbsRx := 16
  const AbsRy := 17
  const NAxes := 4

  /** An input-event code as (event type, event code). */
  datatype Code = Code(kind: int, code: int)

  const MscScan := Code(0x04, 0x04)
  const AxisX := Code(0x03, 0x00)
  const AxisY := Code(0x03, 0x01)
  const AxisRx := Code(0x03, 0x03)
  const AxisRy := Code(0x03, 0x04)
  const MappedAxes: seq<Code> := [AxisX, AxisY, AxisRx, AxisRy]
  const ScanBase := 0x90001

  function ButtonCode(key: int): Code { Code(0x01, 0x120 + key) }

  /** One call on the device: a value for a code (not yet synchronised), or
      the synchronisation that publishes the pending values. */
  datatype Emission = Value(code: Code, value: int) | Syn

  /** A (key, value) pair as the pad protocol delivers it. */
  type Event = (int, int)

  /** The four axis values a freshly made device starts with, then a sync. */
  const InitialLog: seq<Emission> :=
    [Value(AxisX, 127), Value(AxisY, 127), Value(AxisRx, 127), Value(AxisRy, 127), Syn]

  /** A virtual gamepad: its name and everything emitted on it so far. */
  class Device {
    const name: string
    var log: seq<Emission>

    /** Creates the device and centres its four axes. */
    constructor Make(name: string)
      ensures this.name == name && log == InitialLog
    {
      this.name := name;
      log := InitialLog;
    }
  }

  /** Sends one value without synchronising. */
  method EmitOne(device: Device, code: Code, value: int)
    modifies device
    ensures device.log == old(device.log) + [Value(code, value)]
  {
    device.log := device.log + [Value(code, value)];
  }

  /** Python's indexing of a two-element list `[a, b][value]`: which element
      is taken, or None where the index raises IndexError. */
  function PickIndex(value: int): Option<nat>
  {
    if value == 0 || value == -2 then Some(0)
    else if value == 1 || value == -1 then Some(1)
    else None
  }

  function Clamp(value: int): (r: int)
    ensures 0 <= r <= 255
    ensures 0 <= value <= 255 ==> r == value
    ensures value < 0 ==> r == 0
    ensures value > 255 ==> r == 255
  {
    if value < 0 then 0 else if value > 255 then 255 else value
  }

  /** The two D-pad axes. */
  datatype Axis = X | Y

  /** The D-pad key that pulls an axis to 0 (left, up) and to 255 (right, down). */
  function LowKey(a: Axis): int { if a == X then BtnLeft else BtnUp }
  function HighKey(a: Axis): int { if a == X then BtnRight else BtnDown }
  /** The explicit axis key that overrides the D-pad on that axis. */
  function ForceKey(a: Axis): int { if a == X then AbsX else AbsY }
  function AxisCode(a: Axis): Code { if a == X then AxisX else AxisY }

  /** The bookkeeping `emit` keeps while it walks the events. */
  datatype Pending = Pending(xForced: bool, yForced: bool, xChanges: Option<set<int>>, yChanges: Option<set<int>>)
  {
    function Forced(a: Axis): bool { if a == X then xForced else yForced }
    function Changes(a: Axis): Option<set<int>> { if a == X then xChanges else yChanges }
  }

  const NoPending := Pending(false, false, None, None)

  /** The state of the loop in `emit`: what has been emitted, the pending
      D-pad bookkeeping, and whether an event has raised (which ends it). */
  datatype LoopState = LoopState(emitted: seq<Emission>, pending: Pending, raised: bool)

  const Start := LoopState([], NoPending, false)

  function AddChange(changes: Option<set<int>>, v: int): Option<set<int>>
  {
    Some((if changes.Some? then changes.value else {}) + {v})
  }

  /** Whether an event makes the loop raise: a D-pad value that is not a
      valid index into a two-element list, or a key past the four axes. */
  predicate Raises(e: Event)
  {
    (10 <= e.0 < 14 && PickIndex(e.1).None?) || e.0 >= 18
  }

  /** What one event that does not raise emits inside the loop of `emit`:
      a button its scan code and then its state as 0 or 1, a D-pad key
      nothing (it only records a pending change), an axis key its clamped
      value on the mapped axis. */
  function EventEmissions(e: Event): seq<Emission>
    requires !Raises(e)
  {
    if e.0 < 10 then [Value(MscScan, ScanBase + e.0), Value(ButtonCode(e.0), if e.1 != 0 then 1 else 0)]
    else if e.0 < 14 then []
    else [Value(MappedAxes[e.0 - 14], Clamp(e.1))]
  }

  /** One iteration of the loop in `emit`: a raised loop stays as it is, an
      event that raises stops it, any other event adds its own emissions. */
  function StepState(st: LoopState, e: Event): (r: LoopState)
    ensures st.raised ==> r == st
    ensures r.raised <==> st.raised || Raises(e)
  {
    var (event, value) := e;
    var p := st.pending;
    if st.raised then st
    else if Raises(e) then st.(raised := true)
    else if event < 10 then
      st.(emitted := st.emitted + [Value(MscScan, ScanBase + event), Value(ButtonCode(event), if value != 0 then 1 else 0)])
    else if event < 14 then
      var k := PickIndex(value).value;
      if event == BtnUp then st.(pending := p.(yChanges := AddChange(p.yChanges, [127, 0][k])))
      else if event == BtnDown then st.(pending := p.(yChanges := AddChange(p.yChanges, [127, 255][k])))
      else if event == BtnLeft then st.(pending := p.(xChanges := AddChange(p.xChanges, [127, 0][k])))
      else st.(pending := p.(xChanges := AddChange(p.xChanges, [127, 255][k])))
    else
      LoopState(st.emitted + [Value(MappedAxes[event - 14], Clamp(value))],
                p.(xForced := p.xForced || event == AbsX, yForced := p.yForced || event == AbsY),
                false)
  }

  /** A step only adds emissions: nothing once raised or on a raising
      event, otherwise exactly the event's own emissions. */
  lemma StepEmits(st: LoopState, e: Event)
    ensures st.emitted <= StepState(st, e).emitted
    ensures !st.raised && !Raises(e) ==> StepState(st, e).emitted == st.emitted + EventEmissions(e)
  {
  }

  /** The loop of `emit` run over `events` from state `st`. */
  function RunFrom(st: LoopState, events: seq<Event>): (r: LoopState)
    ensures st.raised ==> r == st
    ensures st.emitted <= r.emitted
    decreases |events|
  {
    if events == [] then st
    else
      var front := RunFrom(st, events[..|events| - 1]);
      StepEmits(front, events[|events| - 1]);
      StepState(front, events[|events| - 1])
  }

  function Run(events: seq<Event>): LoopState { RunFrom(Start, events) }

  /** The value a D-pad axis settles on: the one direction held, if exactly
      one remains once the centre value is discarded, else the centre. */
  function Resolve(changes: set<int>): int
  {
    var rest := changes - {127};
    if rest == {0} then 0 else if rest == {255} then 255 else 127
  }

  /** What the D-pad adds for one axis after the loop. */
  function Settle(p: Pending, a: Axis): seq<Emission>
  {
    if !p.Forced(a) && p.Changes(a).Some? then [Value(AxisCode(a), Resolve(p.Changes(a).value))] else []
  }

  /** Everything `emit` sends to the device for `events`: the loop's
      emissions and, unless an event raised (the exception is swallowed and
      nothing more is sent), the settled D-pad axes and one sync. */
  function Translate(events: seq<Event>): (r: seq<Emission>)
    ensures Run(events).raised ==> r == Run(events).emitted
    ensures !Run(events).raised ==>
              Run(events).emitted <= r && |r| <= |Run(events).emitted| + 3 && |r| > 0 && r[|r| - 1] == Syn
  {
    var st := Run(events);
    if st.raised then st.emitted
    else st.emitted + Settle(st.pending, X) + Settle(st.pending, Y) + [Syn]
  }

  /** Sends all the events to the device, as one synchronised batch. */
  method Emit(device: Device, events: seq<Event>)
    modifies device
    ensures device.log == old(device.log) + Translate(events)
  {
    var absXForced, absYForced := false, false;
    var absXChanges: Option<set<int>> := None;
    var absYChanges: Option<set<int>> := None;
    var raised := false;
    var i := 0;
    while i < |events|
      invariant 0 <= i <= |events|
      invariant !raised
      invariant !Run(events[..i]).raised
      invariant device.log == old(device.log) + Run(events[..i]).emitted
      invariant Run(events[..i]).pending == Pending(absXForced, absYForced, absXChanges, absYChanges)
    {
      assert events[..i + 1][..i] == events[..i];
      var (event, value) := events[i];
      if Raises(events[i]) {
        raised := true;
        break;
      }
      if event < 10 {
        // The button itself, preceded by a scan event.
        EmitOne(device, MscScan, ScanBase + event);
        EmitOne(device, ButtonCode(event), if value != 0 then 1 else 0);
      } else if event < 14 {
        // A D-pad direction only records a pending change on its axis.
        var k := PickIndex(value).value;
        if event == BtnUp {
          absYChanges := AddChange(absYChanges, [127, 0][k]);
        } else if event == BtnDown {
          absYChanges := AddChange(absYChanges, [127, 255][k]);
        } else if event == BtnLeft {
          absXChanges := AddChange(absXChanges, [127, 0][k]);
        } else {
          absXChanges := AddChange(absXChanges, [127, 255][k]);
        }
      } else {
        // An explicit X or Y value overrides what the D-pad says on that axis.
        if event == AbsX {
          absXForced := true;
        }
        if event == AbsY {
          absYForced := true;
        }
        EmitOne(device, MappedAxes[event - 14], Clamp(value));
      }
      i := i + 1;
    }
    if raised {
      assert Run(events[..i + 1]).raised;
      RaisedSticks(events, i + 1);
      assert events[..|events|] == events;
      return;
    }
    assert events[..i] == events;
    if !absXForced && absXChanges.Some? {
      EmitOne(device, AxisX, Resolve(absXChanges.value));
    }
    if !absYForced && absYChanges.Some? {
      EmitOne(device, AxisY, Resolve(absYChanges.value));
    }
    device.log := device.log + [Syn];
  }

  /** Once an event has raised, later events change nothing. */
  lemma {:induction false} RaisedSticks(events: seq<Event>, j: nat)
    requires j <= |events|
    requires Run(events[..j]).raised
    ensures Run(events) == Run(events[..j])
    decreases |events| - j
  {
    if j < |events| {
      assert events[..j + 1][..j] == events[..j];
      RaisedSticks(events, j + 1);
    } else {
      assert events[..j] == events;
    }
  }

  /** The events `emit_zero` sends: every button released, every axis centred. */
  function ZeroEvents(): seq<Event>
  {
    seq(NButtons, i => (i, 0)) + seq(NAxes, i => (NButtons + i, 127))
  }

  /** Emits a release of every button and the centre of every axis. */
  method EmitZero(device: Device)
    modifies device
    ensures device.log == old(device.log) + Translate(ZeroEvents())
  {
    Emit(device, ZeroEvents());
  }

  // ---------------------------------------------------------------------
  // What the translation does, stated over the whole event list.

  /** Whether some event has key `k`. */
  predicate HasKey(events: seq<Event>, k: int)
  {
    exists i :: 0 <= i < |events| && events[i].0 == k
  }

  /** Whether some event with key `k` selects the second element of the
      two-element direction list, i.e. presses that D-pad direction. */
  predicate Pressed(events: seq<Event>, k: int)
  {
    exists i :: 0 <= i < |events| && events[i].0 == k && PickIndex(events[i].1) == Some(1)
  }

  /** Whether some event raises. */
  predicate AnyRaises(events: seq<Event>)
  {
    exists i :: 0 <= i < |events| && Raises(events[i])
  }

  /** The value the D-pad puts on an axis: the held direction when exactly
      one of the two is pressed, the centre otherwise. */
  function Direction(events: seq<Event>, a: Axis): int
  {
    var low, high := Pressed(events, LowKey(a)), Pressed(events, HighKey(a));
    if low && !high then 0 else if high && !low then 255 else 127
  }

  /** Running the loop over a concatenation runs it over each part in turn. */
  lemma {:induction false} RunFromAppend(st: LoopState, a: seq<Event>, b: seq<Event>)
    ensures RunFrom(st, a + b) == RunFrom(RunFrom(st, a), b)
    decreases |b|
  {
    if b == [] {
      assert a + b == a;
    } else {
      assert (a + b)[..|a + b| - 1] == a + b[..|b| - 1];
      RunFromAppend(st, a, b[..|b| - 1]);
    }
  }

  /** The loop stops on an event exactly when some event raises. */
  lemma {:induction false} RaisedIffSomeEventRaises(events: seq<Event>)
    ensures Run(events).raised <==> AnyRaises(events)
    decreases |events|
  {
    if events != [] {
      var front := events[..|events| - 1];
      RaisedIffSomeEventRaises(front);
      if AnyRaises(front) {
        var i :| 0 <= i < |front| && Raises(front[i]);
        assert Raises(events[i]);
      }
      if AnyRaises(events) && !Raises(events[|events| - 1]) {
        var i :| 0 <= i < |events| && Raises(events[i]);
        assert Raises(front[i]);
      }
    }
  }

  /** The loop never synchronises: its emissions are all values. */
  lemma {:induction false} LoopEmitsNoSync(events: seq<Event>)
    ensures forall k :: 0 <= k < |Run(events).emitted| ==> Run(events).emitted[k].Value?
    decreases |events|
  {
    if events != [] {
      var front := events[..|events| - 1];
      LoopEmitsNoSync(front);
      var prev, now := Run(front).emitted, Run(events).emitted;
      assert now == prev || (|now| > |prev| && now[..|prev|] == prev && forall k :: |prev| <= k < |now| ==> now[k].Value?);
    }
  }

  /** `emit` ends its batch with one sync exactly when no event raised; the
      sync is the only one it sends, and it is the last emission. */
  lemma SyncIffNoEventRaises(events: seq<Event>)
    ensures var log := Translate(events);
            (|log| > 0 && log[|log| - 1] == Syn) <==> !AnyRaises(events)
    ensures var log := Translate(events);
            forall k :: 0 <= k < |log| - 1 ==> log[k].Value?
  {
    RaisedIffSomeEventRaises(events);
    LoopEmitsNoSync(events);
  }

  /** The loop emissions of a whole event list, event by event. */
  function AllEmissions(events: seq<Event>): seq<Emission>
    requires !AnyRaises(events)
    decreases |events|
  {
    if events == [] then []
    else
      var front := events[..|events| - 1];
      assert !AnyRaises(front) by {
        forall i | 0 <= i < |front| ensures !Raises(front[i]) {
          assert front[i] == events[i];
        }
      }
      AllEmissions(front) + EventEmissions(events[|events| - 1])
  }

  /** When no event raises, the loop emits each event's own emissions, in
      input order, whatever mix of buttons, D-pad keys and axes it gets. */
  lemma {:induction false} LoopEmissionsInOrder(events: seq<Event>)
    requires !AnyRaises(events)
    ensures !Run(events).raised
    ensures Run(events).emitted == AllEmissions(events)
    decreases |events|
  {
    if events != [] {
      var front := events[..|events| - 1];
      assert !AnyRaises(front) by {
        forall i | 0 <= i < |front| ensures !Raises(front[i]) {
          assert front[i] == events[i];
        }
      }
      LoopEmissionsInOrder(front);
      assert !Raises(events[|events| - 1]);
      StepEmits(Run(front), events[|events| - 1]);
    }
  }

  /** An axis value out of range is clamped and a button after it still
      emits; both are synchronised in one batch. */
  lemma MixedBatch()
    ensures Translate([(AbsRx, 300), (BtnNorth, 1)]) ==
            [Value(AxisRx, 255), Value(MscScan, ScanBase), Value(ButtonCode(0), 1), Syn]
  {
    var events: seq<Event> := [(AbsRx, 300), (BtnNorth, 1)];
    assert events[..1] == [(AbsRx, 300)];
    assert events[..1][..0] == [];
    var first := StepState(Start, (AbsRx, 300));
    assert first == LoopState([Value(AxisRx, 255)], NoPending, false);
    assert RunFrom(Start, events[..1][..0]) == Start;
    assert Run(events[..1]) == StepState(Start, events[..1][0]);
    assert Run(events[..1]) == first;
    assert Run(events) == StepState(first, (BtnNorth, 1));
  }

  /** Buttons 0..9 each produce a scan event and then the button state,
      normalised to 0 or 1, in input order; they touch no axis bookkeeping. */
  lemma {:induction false} ButtonsInOrder(events: seq<Event>)
    requires forall i :: 0 <= i < |events| ==> events[i].0 < 10
    ensures !Run(events).raised && Run(events).pending == NoPending
    ensures |Run(events).emitted| == 2 * |events|
    ensures forall i :: 0 <= i < |events| ==>
              Run(events).emitted[2 * i] == Value(MscScan, ScanBase + events[i].0) &&
              Run(events).emitted[2 * i + 1] == Value(ButtonCode(events[i].0), if events[i].1 != 0 then 1 else 0)
    decreases |events|
  {
    if events != [] {
      var front := events[..|events| - 1];
      ButtonsInOrder(front);
      forall i | 0 <= i < |front| ensures front[i] == events[i] { }
    }
  }

  /** An axis counts as forced exactly when its explicit axis key was sent. */
  lemma {:induction false} ForcedIffAxisSent(events: seq<Event>, a: Axis)
    requires !Run(events).raised
    ensures Run(events).pending.Forced(a) <==> HasKey(events, ForceKey(a))
    decreases |events|
  {
    if events != [] {
      var front := events[..|events| - 1];
      assert !Run(front).raised;
      ForcedIffAxisSent(front, a);
      if HasKey(front, ForceKey(a)) {
        var i :| 0 <= i < |front| && front[i].0 == ForceKey(a);
        assert events[i].0 == ForceKey(a);
      }
      if HasKey(events, ForceKey(a)) && events[|events| - 1].0 != ForceKey(a) {
        var i :| 0 <= i < |events| && events[i].0 == ForceKey(a);
        assert front[i].0 == ForceKey(a);
      }
    }
  }

  /** The pending changes of an axis exist exactly when one of its two D-pad
      keys was sent; they hold 0 exactly when the low direction was pressed,
      255 exactly when the high one was, and nothing but 0, 127 and 255. */
  lemma {:induction false} PendingChanges(events: seq<Event>, a: Axis)
    requires !Run(events).raised
    ensures var c := Run(events).pending.Changes(a);
            c.Some? <==> HasKey(events, LowKey(a)) || HasKey(events, HighKey(a))
    ensures var c := Run(events).pending.Changes(a);
            c.Some? ==> (c.value <= {0, 127, 255} &&
                         (0 in c.value <==> Pressed(events, LowKey(a))) &&
                         (255 in c.value <==> Pressed(events, HighKey(a))))
    decreases |events|
  {
    if events != [] {
      var front := events[..|events| - 1];
      var last := events[|events| - 1];
      assert !Run(front).raised;
      PendingChanges(front, a);
      forall k | HasKey(front, k) ensures HasKey(events, k) {
        var i :| 0 <= i < |front| && front[i].0 == k;
        assert events[i].0 == k;
      }
      forall k | HasKey(events, k) && last.0 != k ensures HasKey(front, k) {
        var i :| 0 <= i < |events| && events[i].0 == k;
        assert front[i].0 == k;
      }
      forall k | Pressed(front, k) ensures Pressed(events, k) {
        var i :| 0 <= i < |front| && front[i].0 == k && PickIndex(front[i].1) == Some(1);
        assert events[i] == front[i];
      }
      forall k | Pressed(events, k) && !(last.0 == k && PickIndex(last.1) == Some(1)) ensures Pressed(front, k) {
        var i :| 0 <= i < |events| && events[i].0 == k && PickIndex(events[i].1) == Some(1);
        assert front[i] == events[i];
      }
    }
  }

  /** What the D-pad finally sends on an axis: nothing when the axis was sent
      explicitly or none of its directions was touched, otherwise one value,
      the direction held alone or the centre. */
  lemma DpadSettles(events: seq<Event>, a: Axis)
    requires !AnyRaises(events)
    ensures Settle(Run(events).pending, a) ==
            if HasKey(events, ForceKey(a)) || !(HasKey(events, LowKey(a)) || HasKey(events, HighKey(a))) then []
            else [Value(AxisCode(a), Direction(events, a))]
  {
    RaisedIffSomeEventRaises(events);
    ForcedIffAxisSent(events, a);
    PendingChanges(events, a);
    var c := Run(events).pending.Changes(a);
    if c.Some? {
      var rest := c.value - {127};
      assert rest <= {0, 255};
      assert rest == {0} <==> (0 in rest && 255 !in rest);
      assert rest == {255} <==> (255 in rest && 0 !in rest);
    }
  }

  /** The batch `emit_zero` sends: ten buttons released (each with its scan
      event), the four axes centred, and one sync; the D-pad adds nothing,
      since both of its axes were sent explicitly. */
  lemma ZeroTranslation()
    ensures |Translate(ZeroEvents())| == 25
    ensures forall k :: 0 <= k < 10 ==>
              Translate(ZeroEvents())[2 * k] == Value(MscScan, ScanBase + k) &&
              Translate(ZeroEvents())[2 * k + 1] == Value(ButtonCode(k), 0)
    ensures Translate(ZeroEvents())[20..] ==
            [Value(AxisX, 127), Value(AxisY, 127), Value(AxisRx, 127), Value(AxisRy, 127), Syn]
  {
    var z := ZeroEvents();
    var buttons := z[..10];
    ButtonsInOrder(buttons);
    ZeroRun();
    var st := Run(z);
    assert Settle(st.pending, X) == [] && Settle(st.pending, Y) == [];
  }

  /** The loop part of `emit_zero`: the released buttons' emissions, then the
      four centred axes, with both D-pad axes forced and nothing raised. */
  lemma ZeroRun()
    ensures Run(ZeroEvents()).emitted == Run(ZeroEvents()[..10]).emitted +
              [Value(AxisX, 127), Value(AxisY, 127), Value(AxisRx, 127), Value(AxisRy, 127)]
    ensures Run(ZeroEvents()).pending.xForced && Run(ZeroEvents()).pending.yForced
    ensures !Run(ZeroEvents()).raised
  {
    var z := ZeroEvents();
    var buttons, dpad, axes := z[..10], z[10..14], z[14..];
    assert z == buttons + dpad + axes;
    assert !Run(buttons).raised by { ButtonsInOrder(buttons); }
    RunFromAppend(Start, buttons, dpad);
    RunFromAppend(Start, buttons + dpad, axes);
    assert dpad == [(10, 0), (11, 0), (12, 0), (13, 0)];
    ZeroDpad(Run(buttons));
    assert axes == [(14, 127), (15, 127), (16, 127), (17, 127)];
    ZeroAxes(RunFrom(Run(buttons), dpad));
  }

  /** Released D-pad buttons emit nothing and raise nothing. */
  lemma ZeroDpad(st: LoopState)
    requires !st.raised
    ensures RunFrom(st, [(10, 0), (11, 0), (12, 0), (13, 0)]).emitted == st.emitted
    ensures !RunFrom(st, [(10, 0), (11, 0), (12, 0), (13, 0)]).raised
  {
    RunFromFour(st, [(10, 0), (11, 0), (12, 0), (13, 0)]);
  }

  /** Centred axes are emitted in order and force both D-pad axes. */
  lemma ZeroAxes(st: LoopState)
    requires !st.raised
    ensures RunFrom(st, [(14, 127), (15, 127), (16, 127), (17, 127)]).emitted ==
              st.emitted + [Value(AxisX, 127), Value(AxisY, 127), Value(AxisRx, 127), Value(AxisRy, 127)]
    ensures RunFrom(st, [(14, 127), (15, 127), (16, 127), (17, 127)]).pending.xForced
    ensures RunFrom(st, [(14, 127), (15, 127), (16, 127), (17, 127)]).pending.yForced
    ensures !RunFrom(st, [(14, 127), (15, 127), (16, 127), (17, 127)]).raised
  {
    RunFromFour(st, [(14, 127), (15, 127), (16, 127), (17, 127)]);
  }

  /** The loop over four events, one step at a time. */
  lemma RunFromFour(st: LoopState, e: seq<Event>)
    requires |e| == 4
    ensures RunFrom(st, e) == StepState(StepState(StepState(StepState(st, e[0]), e[1]), e[2]), e[3])
  {
    assert e[..1][..0] == [];
    assert RunFrom(st, e[..1]) == StepState(st, e[0]);
    assert e[..2][..1] == e[..1];
    assert RunFrom(st, e[..2]) == StepState(RunFrom(st, e[..1]), e[1]);
    assert e[..3][..2] == e[..2];
    assert RunFrom(st, e[..3]) == StepState(RunFrom(st, e[..2]), e[2]);
    assert e[..3] == e[..|e| - 1];
  }
}
