/**
 * The command dispatcher (`MspCommandDispatcher`): an ordered list of
 * executors per command. Registration appends to a command's list; dispatch
 * runs the list of the message's command in order, each executor seeing the
 * model as the previous one left it.
 */
module Dispatcher {
  import opened MspTypes
  import opened FlightData
  import opened Executors

  datatype Dispatcher = Dispatcher(executors: map<MspCommand, seq<Executor>>)

  /** The executors registered for `c`, in registration order; none if the command has no entry. */
  function Chain(d: Dispatcher, c: MspCommand): seq<Executor>
  {
    if c in d.executors then d.executors[c] else []
  }

  /**
   * `registerExecutor`: `e` goes at the end of `c`'s list, creating the entry
   * if there was none; every other command keeps its list.
   */
  function Register(d: Dispatcher, c: MspCommand, e: Executor): (r: Dispatcher)
    ensures r.executors.Keys == d.executors.Keys + {c}
    ensures Chain(r, c) == Chain(d, c) + [e]
    ensures forall c' | c' != c :: Chain(r, c') == Chain(d, c')
  {
    Dispatcher(d.executors[c := Chain(d, c) + [e]])
  }

  /**
   * Runs `chain` on `msg` from left to right, threading the model through and
   * collecting the reports in order. The frame buffer is never touched.
   */
  function RunChain(chain: seq<Executor>, msg: Message, m: FlightDataModel): (r: (FlightDataModel, seq<AlinkReport>))
    ensures r.0.frameBuffer == m.frameBuffer && r.0.fbCursor == m.fbCursor
    ensures |r.1| <= |chain|
    ensures (forall i | 0 <= i < |chain| :: chain[i] != RcAlinkExec) ==> r.1 == []
    decreases |chain|
  {
    if |chain| == 0 then (m, [])
    else
      var s := Execute(chain[0], msg, m);
      var t := RunChain(chain[1..], msg, s.0);
      (t.0, (if s.1.Some? then [s.1.value] else []) + t.1)
  }

  /** The equation of `RunChainAppend` for one split of the chain. */
  predicate ChainSplits(a: seq<Executor>, b: seq<Executor>, msg: Message, m: FlightDataModel)
  {
    RunChain(a + b, msg, m)
      == (RunChain(b, msg, RunChain(a, msg, m).0).0,
          RunChain(a, msg, m).1 + RunChain(b, msg, RunChain(a, msg, m).0).1)
  }

  lemma ChainSplitsNil(b: seq<Executor>, msg: Message, m: FlightDataModel)
    ensures ChainSplits([], b, msg, m)
  {
    assert [] + b == b;
    var r := RunChain(b, msg, m);
    assert [] + r.1 == r.1;
    assert (r.0, r.1) == r;
  }

  lemma ChainSplitsCons(a: seq<Executor>, b: seq<Executor>, msg: Message, m: FlightDataModel)
    requires |a| > 0
    requires ChainSplits(a[1..], b, msg, Execute(a[0], msg, m).0)
    ensures ChainSplits(a, b, msg, m)
  {
    assert (a + b)[0] == a[0];
    assert (a + b)[1..] == a[1..] + b;
    var s := Execute(a[0], msg, m);
    var ra := RunChain(a[1..], msg, s.0);
    var rb := RunChain(b, msg, ra.0);
    var head := if s.1.Some? then [s.1.value] else [];
    assert RunChain(a, msg, m) == (ra.0, head + ra.1);
    assert RunChain(a + b, msg, m) == (rb.0, head + (ra.1 + rb.1));
    assert head + (ra.1 + rb.1) == (head + ra.1) + rb.1;
  }

  /** Running `a + b` is running `a` and then `b` on the model `a` left. */
  lemma {:induction false} RunChainAppend(a: seq<Executor>, b: seq<Executor>, msg: Message, m: FlightDataModel)
    ensures RunChain(a + b, msg, m)
         == (RunChain(b, msg, RunChain(a, msg, m).0).0,
             RunChain(a, msg, m).1 + RunChain(b, msg, RunChain(a, msg, m).0).1)
    decreases |a|
  {
    if |a| == 0 {
      assert a == [];
      ChainSplitsNil(b, msg, m);
    } else {
      RunChainAppend(a[1..], b, msg, Execute(a[0], msg, m).0);
      ChainSplitsCons(a, b, msg, m);
    }
  }

  /** A one-executor chain is that executor. */
  lemma RunChainSingle(e: Executor, msg: Message, m: FlightDataModel)
    ensures RunChain([e], msg, m).0 == Execute(e, msg, m).0
    ensures RunChain([e], msg, m).1 == (if Execute(e, msg, m).1.Some? then [Execute(e, msg, m).1.value] else [])
  {
    assert [e][1..] == [];
  }

  /**
   * `dispatchMessage`: the executors registered for the message's command run
   * in order on the model; a command without an entry runs nothing.
   */
  function Dispatch(d: Dispatcher, msg: Message, m: FlightDataModel): (r: (FlightDataModel, seq<AlinkReport>))
    ensures msg.cmd !in d.executors ==> r == (m, [])
    ensures r.0.frameBuffer == m.frameBuffer && r.0.fbCursor == m.fbCursor
  {
    if msg.cmd in d.executors then RunChain(d.executors[msg.cmd], msg, m) else (m, [])
  }

  /** Dispatch runs exactly the chain of the message's command. */
  lemma DispatchRunsChain(d: Dispatcher, msg: Message, m: FlightDataModel)
    ensures Dispatch(d, msg, m) == RunChain(Chain(d, msg.cmd), msg, m)
  {
  }

  /**
   * After registering `e` for `c`, a message for `c` runs the old chain and
   * then `e` on the model it left; messages for other commands are dispatched
   * as before.
   */
  lemma DispatchAfterRegister(d: Dispatcher, c: MspCommand, e: Executor, msg: Message, m: FlightDataModel)
    ensures msg.cmd != c ==> Dispatch(Register(d, c, e), msg, m) == Dispatch(d, msg, m)
    ensures msg.cmd == c ==>
      var before := Dispatch(d, msg, m);
      var last := Execute(e, msg, before.0);
      Dispatch(Register(d, c, e), msg, m)
        == (last.0, before.1 + (if last.1.Some? then [last.1.value] else []))
  {
    DispatchRunsChain(d, msg, m);
    DispatchRunsChain(Register(d, c, e), msg, m);
    if msg.cmd == c {
      RunChainAppend(Chain(d, c), [e], msg, m);
      RunChainSingle(e, msg, RunChain(Chain(d, c), msg, m).0);
    }
  }

  /** The dispatcher as constructed: STATUS, ATTITUDE and FC_VARIANT each with their one executor. */
  function NewDispatcher(): (d: Dispatcher)
    ensures Chain(d, Status) == [StatusExec]
    ensures Chain(d, Attitude) == [AttitudeExec]
    ensures Chain(d, FcVariant) == [FcVariantExec]
    ensures Chain(d, Rc) == [] && Chain(d, Unknown) == []
  {
    var empty := Dispatcher(map[]);
    Register(Register(Register(empty, Status, StatusExec), Attitude, AttitudeExec), FcVariant, FcVariantExec)
  }

  /**
   * The RC wiring of the program's start-up: the console executor, then the
   * alink forwarder only when an outbound port was given (`outPort > 0`).
   */
  function WireRc(d: Dispatcher, outPort: int): (r: Dispatcher)
    ensures Chain(r, Rc) == Chain(d, Rc) + [RcConsoleExec] + (if outPort > 0 then [RcAlinkExec] else [])
    ensures forall c | c != Rc :: Chain(r, c) == Chain(d, c)
  {
    var withConsole := Register(d, Rc, RcConsoleExec);
    if outPort > 0 then Register(withConsole, Rc, RcAlinkExec) else withConsole
  }

  /** The dispatcher the program runs with. */
  function StartupDispatcher(outPort: int): Dispatcher
  {
    WireRc(NewDispatcher(), outPort)
  }

  /** Unknown command ids have no executors: their messages change nothing and send nothing. */
  lemma UnknownIsIgnored(outPort: int, msg: Message, m: FlightDataModel)
    requires msg.cmd == Unknown
    ensures Dispatch(StartupDispatcher(outPort), msg, m) == (m, [])
  {
    DispatchRunsChain(StartupDispatcher(outPort), msg, m);
  }

  /** The RC chain at start-up: the console executor, then the forwarder if an outbound port was given. */
  lemma RcChain(outPort: int)
    ensures Chain(StartupDispatcher(outPort), Rc) == [RcConsoleExec] + (if outPort > 0 then [RcAlinkExec] else [])
  {
    assert Chain(NewDispatcher(), Rc) == [];
    assert [] + [RcConsoleExec] == [RcConsoleExec];
  }

  /** The console executor alone stores the channels and sends nothing. */
  lemma RunConsole(msg: Message, m: FlightDataModel)
    ensures RunChain([RcConsoleExec], msg, m) == (RcConsoleUpdate(msg, m), [])
  {
    RunChainSingle(RcConsoleExec, msg, m);
  }

  /** The console executor and then the forwarder: the forwarder reads the channels just stored. */
  lemma RunConsoleThenForwarder(msg: Message, m: FlightDataModel)
    ensures RunChain([RcConsoleExec, RcAlinkExec], msg, m)
         == (RcConsoleUpdate(msg, m),
             if msg.size as int >= RcMinSize then [AlinkFigures(RcConsoleUpdate(msg, m).channels)] else [])
  {
    assert [RcConsoleExec, RcAlinkExec] == [RcConsoleExec] + [RcAlinkExec];
    RunChainAppend([RcConsoleExec], [RcAlinkExec], msg, m);
    RunConsole(msg, m);
    var console := RcConsoleUpdate(msg, m);
    RunChainSingle(RcAlinkExec, msg, console);
    var report := AlinkReportOf(msg, console);
    assert RunChain([RcAlinkExec], msg, console) == (console, if report.Some? then [report.value] else []);
    assert [] + RunChain([RcAlinkExec], msg, console).1 == RunChain([RcAlinkExec], msg, console).1;
  }

  /**
   * An RC message of at least 32 bytes: the console executor stores sixteen
   * channels and the forwarder, if wired, reports figures taken from the
   * channels just stored, that is from payload bytes 16, 17, 20, 22 and 23.
   * A shorter RC message changes nothing and sends nothing.
   */
  lemma RcDispatch(outPort: int, msg: Message, m: FlightDataModel)
    requires msg.cmd == Rc
    ensures msg.size as int < RcMinSize ==> Dispatch(StartupDispatcher(outPort), msg, m) == (m, [])
    ensures msg.size as int >= RcMinSize ==>
      var r := Dispatch(StartupDispatcher(outPort), msg, m);
      && r.0 == RcConsoleUpdate(msg, m)
      && r.1 == (if outPort > 0 then [AlinkFigures(RcConsoleUpdate(msg, m).channels)] else [])
  {
    DispatchRunsChain(StartupDispatcher(outPort), msg, m);
    RcChain(outPort);
    if outPort > 0 {
      assert [RcConsoleExec] + [RcAlinkExec] == [RcConsoleExec, RcAlinkExec];
      RunConsoleThenForwarder(msg, m);
    } else {
      assert [RcConsoleExec] + [] == [RcConsoleExec];
      RunConsole(msg, m);
    }
  }

  /** Each pre-registered command runs its one executor. */
  lemma BaseDispatch(outPort: int, msg: Message, m: FlightDataModel)
    ensures msg.cmd == Status ==> Dispatch(StartupDispatcher(outPort), msg, m) == (StatusUpdate(msg, m), [])
    ensures msg.cmd == Attitude ==> Dispatch(StartupDispatcher(outPort), msg, m) == (AttitudeUpdate(msg, m), [])
    ensures msg.cmd == FcVariant ==> Dispatch(StartupDispatcher(outPort), msg, m) == (FcVariantUpdate(msg, m), [])
  {
    var d := StartupDispatcher(outPort);
    DispatchRunsChain(d, msg, m);
    if msg.cmd in {Status, Attitude, FcVariant} {
      var e := match msg.cmd case Status => StatusExec case Attitude => AttitudeExec case _ => FcVariantExec;
      assert Chain(d, msg.cmd) == [e];
      RunChainSingle(e, msg, m);
    }
  }
}
