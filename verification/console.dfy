/**
 * The control panel's own state (Interface.jsx): the ten-line console
 * log, the serial connection (a port together with a text writer), and
 * slider moves, which are always forwarded to the application and also
 * written to the device while a writer is open.
 */
module Console {
  import opened Optional
  import WireFormat

  const MaxLogs := 10

  /** `[${time}] ${msg}`, with the wall-clock time given as text. */
  function LogLine(time: string, msg: string): string
  {
    "[" + time + "] " + msg
  }

  /** The time stamp and the message can be read back from a log line. */
  lemma LogLineReadsBack(time: string, msg: string)
    requires ']' !in time
    ensures var l := LogLine(time, msg);
            && l[0] == '['
            && (forall i :: 0 <= i <= |time| ==> l[i] != ']')
            && l[|time| + 1] == ']'
            && l[1..|time| + 1] == time
            && l[|time| + 3..] == msg
  {
    var l := LogLine(time, msg);
    forall i | 1 <= i <= |time| ensures l[i] != ']' {
      assert l[i] == time[i - 1];
    }
  }

  /** `addLog`: newest first, at most ten lines kept. */
  function AddLog(logs: seq<string>, line: string): (r: seq<string>)
    ensures |r| == if |logs| < MaxLogs then |logs| + 1 else MaxLogs
    ensures r[0] == line
    ensures forall i :: 1 <= i < |r| ==> r[i] == logs[i - 1]
  {
    var all := [line] + logs;
    if |all| <= MaxLogs then all else all[..MaxLogs]
  }

  /** Lines added one after another, oldest first. */
  function AddLogs(logs: seq<string>, lines: seq<string>): seq<string>
    decreases |lines|
  {
    if |lines| == 0 then logs
    else AddLog(AddLogs(logs, lines[..|lines| - 1]), lines[|lines| - 1])
  }

  function Reverse<T>(s: seq<T>): (r: seq<T>)
    ensures |r| == |s|
    ensures forall i :: 0 <= i < |s| ==> r[i] == s[|s| - 1 - i]
    decreases |s|
  {
    if |s| == 0 then [] else [s[|s| - 1]] + Reverse(s[..|s| - 1])
  }

  function Min(a: int, b: int): int
  {
    if a <= b then a else b
  }

  /**
   * After any run of `addLog` calls the console shows the ten most recent
   * lines, newest first, followed by what was there before.
   */
  lemma {:induction false} AddLogsKeepsNewest(logs: seq<string>, lines: seq<string>)
    requires |logs| <= MaxLogs
    ensures AddLogs(logs, lines) == (Reverse(lines) + logs)[..Min(|lines| + |logs|, MaxLogs)]
    decreases |lines|
  {
    if |lines| == 0 {
      assert Reverse(lines) + logs == logs;
    } else {
      var init := lines[..|lines| - 1];
      var last := lines[|lines| - 1];
      AddLogsKeepsNewest(logs, init);
      var before := AddLogs(logs, init);
      var r := AddLogs(logs, lines);
      var expected := (Reverse(lines) + logs)[..Min(|lines| + |logs|, MaxLogs)];
      assert |r| == |expected|;
      assert Reverse(lines) == [last] + Reverse(init);
      forall i | 0 <= i < |r| ensures r[i] == expected[i] {
        if i == 0 {
          assert r[0] == last;
        } else {
          assert r[i] == before[i - 1];
          assert (Reverse(init) + logs)[i - 1] == (Reverse(lines) + logs)[i];
        }
      }
    }
  }

  type PortId = nat
  type WriterId = nat

  /** What the serial device sees, in order. */
  datatype DeviceOp =
    | Open(port: PortId, baudRate: nat)
    | Write(line: string)
    | CloseWriter(writer: WriterId, closed: bool)
    | ClosePort(port: PortId, closed: bool)

  const BaudRate := 115200

  /** The panel's state; `device` records every operation issued to a device. */
  datatype Panel = Panel(port: Option<PortId>, writer: Option<WriterId>, logs: seq<string>, device: seq<DeviceOp>)

  const InitialPanel := Panel(None, None, [], [])

  /** What the panel asks of the rest of the page. */
  datatype Effect = Alert(message: string) | JointChange(name: string, value: real)

  datatype Reply = Reply(panel: Panel, effects: seq<Effect>)

  /**
   * How the browser answers a connection request: a port opened with a
   * text writer on it, or an error (pairing cancelled, open failed).
   */
  datatype ConnectOutcome = Opened(port: PortId, writer: WriterId) | Failed(message: string)

  const NoSerialAlert := "Browser not supported."
  const ConnectedMsg := "Connected."
  const DisconnectedMsg := "Disconnected."

  /** `connectSerial`; `serialAvailable` is whether `navigator.serial` exists. */
  function Connect(p: Panel, serialAvailable: bool, outcome: ConnectOutcome, time: string): (r: Reply)
    ensures !serialAvailable ==> r.panel == p && r.effects == [Alert(NoSerialAlert)]
    ensures serialAvailable ==> r.effects == [] && |r.panel.logs| == Min(|p.logs| + 1, MaxLogs)
    ensures serialAvailable ==> forall i :: 1 <= i < |r.panel.logs| ==> r.panel.logs[i] == p.logs[i - 1]
    ensures serialAvailable && outcome.Opened? ==>
              && r.panel.port == Some(outcome.port) && r.panel.writer == Some(outcome.writer)
              && r.panel.device == p.device + [Open(outcome.port, BaudRate)]
              && r.panel.logs[0] == LogLine(time, ConnectedMsg)
    ensures serialAvailable && outcome.Failed? ==>
              && r.panel.port == p.port && r.panel.writer == p.writer && r.panel.device == p.device
              && r.panel.logs[0] == LogLine(time, outcome.message)
  {
    if !serialAvailable then Reply(p, [Alert(NoSerialAlert)])
    else
      match outcome
      case Opened(port, writer) =>
        Reply(Panel(Some(port), Some(writer), AddLog(p.logs, LogLine(time, ConnectedMsg)),
                    p.device + [Open(port, BaudRate)]), [])
      case Failed(message) =>
        Reply(p.(logs := AddLog(p.logs, LogLine(time, message))), [])
  }

  /**
   * How the two awaited `close()` calls of `disconnectSerial` settle. A
   * rejected close ends the handler at that point: the handle stays held
   * and nothing is logged. The port's close rejects, for instance, while
   * the encoder's pipe, whose promise is never awaited, still locks the
   * port's writable stream.
   */
  datatype CloseOutcome = CloseOutcome(writerCloses: bool, portCloses: bool)

  /** Every close the handler attempts succeeds, so it runs to the end. */
  predicate Completes(p: Panel, c: CloseOutcome)
  {
    (p.writer.None? || c.writerCloses) && (p.port.None? || c.portCloses)
  }

  /**
   * The device operations `disconnectSerial` issues: the writer is closed
   * first, and the port only once the writer's close has succeeded.
   */
  function CloseOps(p: Panel, c: CloseOutcome): seq<DeviceOp>
  {
    if p.writer.Some? && !c.writerCloses then [CloseWriter(p.writer.value, false)]
    else
      (if p.writer.Some? then [CloseWriter(p.writer.value, true)] else [])
      + (if p.port.Some? then [ClosePort(p.port.value, c.portCloses)] else [])
  }

  /** `disconnectSerial`: releases each handle whose close succeeds, and logs only at the end. */
  function Disconnect(p: Panel, c: CloseOutcome, time: string): (r: Panel)
    ensures r.device == p.device + CloseOps(p, c)
    ensures Completes(p, c) ==> && r.port.None? && r.writer.None?
                                && |r.logs| == Min(|p.logs| + 1, MaxLogs)
                                && r.logs[0] == LogLine(time, DisconnectedMsg)
                                && forall i :: 1 <= i < |r.logs| ==> r.logs[i] == p.logs[i - 1]
    ensures !Completes(p, c) ==> r.logs == p.logs && r.port == p.port
    ensures p.writer.Some? && !c.writerCloses ==> r.writer == p.writer
    ensures p.writer.None? || c.writerCloses ==> r.writer.None?
  {
    if p.writer.Some? && !c.writerCloses then
      p.(device := p.device + CloseOps(p, c))
    else if p.port.Some? && !c.portCloses then
      p.(writer := None, device := p.device + CloseOps(p, c))
    else
      Panel(None, None, AddLog(p.logs, LogLine(time, DisconnectedMsg)), p.device + CloseOps(p, c))
  }

  /** `handleSliderChange` with the parsed slider value. */
  function SliderChange(p: Panel, name: string, value: real): (r: Reply)
    ensures r.effects == [JointChange(name, value)]
    ensures r.panel.port == p.port && r.panel.writer == p.writer && r.panel.logs == p.logs
    ensures p.writer.None? ==> r.panel.device == p.device
    ensures p.writer.Some? ==> r.panel.device == p.device + [Write(WireFormat.Line(name, value))]
  {
    var device := if p.writer.Some? then p.device + [Write(WireFormat.Line(name, value))] else p.device;
    Reply(p.(device := device), [JointChange(name, value)])
  }

  /** What the user can do on the panel. */
  datatype Action =
    | PressConnectionButton(serialAvailable: bool, outcome: ConnectOutcome, closes: CloseOutcome, time: string)
    | MoveSlider(name: string, value: real)

  /**
   * The connection button reads "Connect" while no port is held and
   * "Disconnect" otherwise, so connecting is only offered without a port.
   */
  function Step(p: Panel, a: Action): (r: Reply)
    ensures |p.device| <= |r.panel.device| && r.panel.device[..|p.device|] == p.device
    ensures p.port.Some? ==> forall i :: |p.device| <= i < |r.panel.device| ==> !r.panel.device[i].Open?
    ensures p.port.None? ==> forall i :: |p.device| <= i < |r.panel.device| ==> !r.panel.device[i].ClosePort?
  {
    match a
    case PressConnectionButton(available, outcome, closes, time) =>
      if p.port.None? then Connect(p, available, outcome, time) else Reply(Disconnect(p, closes, time), [])
    case MoveSlider(name, value) => SliderChange(p, name, value)
  }

  function Run(p: Panel, actions: seq<Action>): Panel
    decreases |actions|
  {
    if |actions| == 0 then p
    else Step(Run(p, actions[..|actions| - 1]), actions[|actions| - 1]).panel
  }

  /** Ports opened minus ports closed in a device log. */
  function OpenPorts(ops: seq<DeviceOp>): int
    decreases |ops|
  {
    if |ops| == 0 then 0
    else
      var last := ops[|ops| - 1];
      OpenPorts(ops[..|ops| - 1]) + (if last.Open? then 1 else if last.ClosePort? && last.closed then -1 else 0)
  }

  lemma {:induction false} OpenPortsAppend(a: seq<DeviceOp>, b: seq<DeviceOp>)
    ensures OpenPorts(a + b) == OpenPorts(a) + OpenPorts(b)
    decreases |b|
  {
    if |b| == 0 {
      assert a + b == a;
    } else {
      assert (a + b)[..|a + b| - 1] == a + b[..|b| - 1];
      OpenPortsAppend(a, b[..|b| - 1]);
    }
  }

  lemma OpenPortsOne(x: DeviceOp)
    ensures OpenPorts([x]) == if x.Open? then 1 else if x.ClosePort? && x.closed then -1 else 0
  {
    assert [x][..0] == [];
  }

  /** A disconnect closes the held port exactly when it runs to the end. */
  lemma CloseOpsOpenPorts(p: Panel, c: CloseOutcome)
    requires p.writer.Some? ==> p.port.Some?
    ensures OpenPorts(CloseOps(p, c)) == if p.port.Some? && Completes(p, c) then -1 else 0
  {
    var ops := CloseOps(p, c);
    if p.writer.Some? && !c.writerCloses {
      OpenPortsOne(CloseWriter(p.writer.value, false));
    } else if p.writer.Some? {
      var w, q := CloseWriter(p.writer.value, true), ClosePort(p.port.value, c.portCloses);
      assert ops == [w] + [q];
      OpenPortsAppend([w], [q]);
      OpenPortsOne(w);
      OpenPortsOne(q);
    } else if p.port.Some? {
      OpenPortsOne(ClosePort(p.port.value, c.portCloses));
    } else {
      assert ops == [];
    }
  }

  /**
   * No writer is held without its port (a failed port close leaves the
   * port alone), the log never exceeds ten lines, and exactly one port is
   * open while one is held.
   */
  predicate Consistent(p: Panel)
  {
    && (p.writer.Some? ==> p.port.Some?)
    && |p.logs| <= MaxLogs
    && OpenPorts(p.device) == (if p.port.Some? then 1 else 0)
  }

  lemma StepConsistent(p: Panel, a: Action)
    requires Consistent(p)
    ensures Consistent(Step(p, a).panel)
  {
    match a
    case PressConnectionButton(available, outcome, closes, time) =>
      if p.port.None? {
        if available && outcome.Opened? {
          OpenPortsAppend(p.device, [Open(outcome.port, BaudRate)]);
          OpenPortsOne(Open(outcome.port, BaudRate));
        }
      } else {
        CloseOpsOpenPorts(p, closes);
        OpenPortsAppend(p.device, CloseOps(p, closes));
      }
    case MoveSlider(name, value) =>
      if p.writer.Some? {
        OpenPortsAppend(p.device, [Write(WireFormat.Line(name, value))]);
        OpenPortsOne(Write(WireFormat.Line(name, value)));
      }
  }

  /** Whatever the user does, at most one serial connection is ever open. */
  lemma {:induction false} RunConsistent(actions: seq<Action>)
    ensures Consistent(Run(InitialPanel, actions))
    decreases |actions|
  {
    if |actions| > 0 {
      RunConsistent(actions[..|actions| - 1]);
      StepConsistent(Run(InitialPanel, actions[..|actions| - 1]), actions[|actions| - 1]);
    }
  }
}
