// The receiving side: a control session that starts and stops a pump task for
// each LOAD, interleaved with the pumps themselves.
module ReceiverSession {
  import opened Wrappers

  datatype PumpCmd = Play | Pause | Seek | Stop

  // A pump task: the commands waiting for it, whether its sender still
  // exists, and how often it has closed its puller.
  datatype Pump = Pump(mailbox: seq<PumpCmd>, connected: bool, playing: bool, finished: bool, closes: nat)

  // How far a LOAD gets: no puller opened, an opened one but no sink or
  // decoder for it, or all the way to a pump.
  datatype LoadResult = NoPuller | NoOutput | Loaded

  datatype Command =
    | CmdLoad(autoplay: bool, result: LoadResult)
    | CmdPlay
    | CmdPause
    | CmdStop
    | CmdSeek
    | CmdOther
    | CmdFails
    | Cancel

  // What a pump gets from its puller.
  datatype Packet = Media | EndOfStream | PullError

  // How a session ends.
  datatype Ending = Cancelled | ControlLost | LoadFailed(result: LoadResult)

  // Where the session stands: waiting for a command, waiting for room in the
  // pump's channel, waiting for the pump to end, or returned.
  datatype Phase =
    | Ready
    | Sending(cmd: PumpCmd, then_: Command)
    | Joining(then_: Command)
    | Ended(ending: Ending)

  // `current` is the pump the session holds the sender and the handle of;
  // `pullers` counts the pullers ever opened.
  datatype World = World(phase: Phase, current: Option<nat>, pumps: seq<Pump>, pullers: nat)

  datatype Event =
    | Commands(c: Command)
    | Sends
    | Joined
    | TakesCommand(i: nat)
    | TakesPacket(i: nat, packet: Packet)

  const START := World(Ready, None, [], 0)
  const CHANNEL_SIZE := 8

  function Close(p: Pump): Pump {
    p.(finished := true, closes := p.closes + 1)
  }

  // One turn of the pump loop on its command channel.
  function PumpCommand(p: Pump): Pump {
    if p.finished then p
    else if p.mailbox != [] then
      var p' := p.(mailbox := p.mailbox[1..]);
      match p.mailbox[0]
      case Play => p'.(playing := true)
      case Pause => p'.(playing := false)
      case Seek => p'
      case Stop => Close(p')
    else if !p.connected then Close(p)
    else p
  }

  // One turn on a packet, which is polled only while playing.
  function PumpPacket(p: Pump, packet: Packet): Pump {
    if p.finished || !p.playing || packet.Media? then p else Close(p)
  }

  // Start sending to the current pump, if there is one.
  function StartSending(w: World, cmd: PumpCmd, c: Command): World {
    if w.current.Some? then w.(phase := Sending(cmd, c)) else Resume(w, c)
  }

  // The pump whose channel the session is sending on takes the command when
  // there is room; a pump that has ended refuses it at once.
  predicate Accepts(p: Pump) {
    p.finished || |p.mailbox| < CHANNEL_SIZE
  }

  function Deliver(p: Pump, cmd: PumpCmd): Pump {
    if p.finished then p else p.(mailbox := p.mailbox + [cmd])
  }

  // The command is sent. A Stop gives the sender up, and the pump is joined.
  function AfterSending(w: World, i: nat, cmd: PumpCmd, c: Command): World
    requires i < |w.pumps|
  {
    var p := Deliver(w.pumps[i], cmd);
    if cmd.Stop? then w.(pumps := w.pumps[i := p.(connected := false)], phase := Joining(c))
    else w.(pumps := w.pumps[i := p], phase := Ready)
  }

  // After the old pump is gone: finish the command that asked for it.
  function Resume(w: World, c: Command): World {
    match c
    case CmdLoad(autoplay, result) =>
      if result.Loaded? then
        World(Ready, Some(|w.pumps|), w.pumps + [Pump([], true, autoplay, false, 0)], w.pullers + 1)
      else World(Ended(LoadFailed(result)), None, w.pumps, if result.NoOutput? then w.pullers + 1 else w.pullers)
    case Cancel => World(Ended(Cancelled), None, w.pumps, w.pullers)
    case _ => World(Ready, None, w.pumps, w.pullers)
  }

  function OnCommand(w: World, c: Command): World {
    match c
    case CmdLoad(_, _) => StartSending(w, Stop, c)
    case CmdStop => StartSending(w, Stop, c)
    case Cancel => StartSending(w, Stop, c)
    case CmdPlay => StartSending(w, Play, c)
    case CmdPause => StartSending(w, Pause, c)
    case CmdSeek => StartSending(w, Seek, c)
    case CmdOther => w
    case CmdFails =>
      if w.current.Some? && w.current.value < |w.pumps|
      then World(Ended(ControlLost), None,
                 w.pumps[w.current.value := w.pumps[w.current.value].(connected := false)], w.pullers)
      else World(Ended(ControlLost), None, w.pumps, w.pullers)
  }

  function Next(w: World, e: Event): World {
    match e
    case Commands(c) => if w.phase.Ready? then OnCommand(w, c) else w
    case Sends =>
      if w.phase.Sending? && w.current.Some? && w.current.value < |w.pumps| && Accepts(w.pumps[w.current.value])
      then AfterSending(w, w.current.value, w.phase.cmd, w.phase.then_) else w
    case Joined =>
      if w.phase.Joining? && w.current.Some? && w.current.value < |w.pumps| && w.pumps[w.current.value].finished
      then Resume(w.(current := None), w.phase.then_) else w
    case TakesCommand(i) => if i < |w.pumps| then w.(pumps := w.pumps[i := PumpCommand(w.pumps[i])]) else w
    case TakesPacket(i, packet) =>
      if i < |w.pumps| then w.(pumps := w.pumps[i := PumpPacket(w.pumps[i], packet)]) else w
  }

  function Run(w: World, events: seq<Event>): World
    decreases |events|
  {
    if events == [] then w else Run(Next(w, events[0]), events[1..])
  }

  // Pumps that have not ended, and pullers that ended pumps have closed.
  function Running(pumps: seq<Pump>): nat {
    if pumps == [] then 0
    else Running(pumps[..|pumps| - 1]) + if pumps[|pumps| - 1].finished then 0 else 1
  }

  function Closed(pumps: seq<Pump>): nat {
    if pumps == [] then 0 else Closed(pumps[..|pumps| - 1]) + pumps[|pumps| - 1].closes
  }

  ghost predicate PumpOk(p: Pump) {
    p.closes == (if p.finished then 1 else 0) && |p.mailbox| <= CHANNEL_SIZE
  }

  // Pullers that were opened and dropped without being closed.
  function Dropped(w: World): nat {
    if w.phase == Ended(LoadFailed(NoOutput)) then 1 else 0
  }

  ghost predicate Inv(w: World) {
    && (forall i :: 0 <= i < |w.pumps| ==> PumpOk(w.pumps[i]))
    && w.pullers == |w.pumps| + Dropped(w)
    // only the newest pump can still be running
    && (forall i :: 0 <= i < |w.pumps| - 1 ==> w.pumps[i].finished)
    && (w.current.Some? ==> |w.pumps| > 0 && w.current.value == |w.pumps| - 1)
    && (w.phase.Sending? ==>
          && w.current.Some? && w.pumps[|w.pumps| - 1].connected
          && (NeedsEnd(w.phase.then_) <==> w.phase.cmd.Stop?))
    && (w.phase.Ready? && w.current.Some? ==> w.pumps[|w.pumps| - 1].connected)
    && (w.phase.Joining? ==>
          w.current.Some? && NeedsEnd(w.phase.then_) && !w.pumps[|w.pumps| - 1].connected
          && (w.pumps[|w.pumps| - 1].finished || Stop in w.pumps[|w.pumps| - 1].mailbox))
    // without a current pump in hand everything is finished, except after the
    // control connection failed, when the last pump has lost its sender
    && (w.current.None? && |w.pumps| > 0 ==>
          w.pumps[|w.pumps| - 1].finished || (w.phase == Ended(ControlLost) && !w.pumps[|w.pumps| - 1].connected))
    && (w.phase.Ended? ==> w.current.None?)
  }

  // Commands that end the current pump first.
  predicate NeedsEnd(c: Command) {
    c.CmdLoad? || c.CmdStop? || c.Cancel?
  }

  lemma PumpTurnKeepsOk(p: Pump, packet: Packet)
    requires PumpOk(p)
    ensures PumpOk(PumpCommand(p)) && PumpOk(PumpPacket(p, packet))
    ensures p.finished ==> PumpCommand(p) == p && PumpPacket(p, packet) == p
    ensures PumpCommand(p).connected == p.connected && PumpPacket(p, packet).connected == p.connected
    ensures Stop in p.mailbox ==> PumpCommand(p).finished || Stop in PumpCommand(p).mailbox
    ensures PumpPacket(p, packet).mailbox == p.mailbox
  {
  }

  lemma CommandKeepsInv(w: World, c: Command)
    requires Inv(w) && w.phase.Ready?
    ensures Inv(OnCommand(w, c))
  {
    hide Resume;
    if c.CmdFails? || c.CmdOther? {
    } else if w.current.None? {
      JoinKeepsInv(w, c);
      assert w.(current := None) == w;
    }
  }

  lemma SendKeepsInv(w: World)
    requires Inv(w) && w.phase.Sending? && Accepts(w.pumps[|w.pumps| - 1])
    ensures Inv(AfterSending(w, |w.pumps| - 1, w.phase.cmd, w.phase.then_))
  {
  }

  lemma JoinKeepsInv(w: World, c: Command)
    requires Inv(w) && !w.phase.Ended? && (|w.pumps| > 0 ==> w.pumps[|w.pumps| - 1].finished)
    ensures Inv(Resume(w.(current := None), c))
  {
  }

  lemma InvStep(w: World, e: Event)
    requires Inv(w)
    ensures Inv(Next(w, e))
  {
    hide OnCommand, AfterSending, Resume, PumpCommand, PumpPacket, Accepts, NeedsEnd;
    match e {
      case Commands(c) => if w.phase.Ready? { CommandKeepsInv(w, c); }
      case Sends => if w.phase.Sending? && Accepts(w.pumps[w.current.value]) { SendKeepsInv(w); }
      case Joined =>
        if w.phase.Joining? && w.pumps[w.current.value].finished { JoinKeepsInv(w, w.phase.then_); }
      case TakesCommand(i) => if i < |w.pumps| { PumpTurnKeepsOk(w.pumps[i], Media); }
      case TakesPacket(i, packet) => if i < |w.pumps| { PumpTurnKeepsOk(w.pumps[i], packet); }
    }
  }

  lemma {:induction false} InvRun(w: World, events: seq<Event>)
    requires Inv(w)
    ensures Inv(Run(w, events))
    decreases |events|
  {
    if events != [] {
      InvStep(w, events[0]);
      InvRun(Next(w, events[0]), events[1..]);
    }
  }

  lemma {:induction false} CountPumps(pumps: seq<Pump>)
    requires forall i :: 0 <= i < |pumps| ==> PumpOk(pumps[i])
    ensures Running(pumps) + Closed(pumps) == |pumps|
  {
    if pumps != [] {
      CountPumps(pumps[..|pumps| - 1]);
    }
  }

  // In every interleaving at most one pump runs, every finished pump has
  // closed its puller exactly once, and when the session ends other than by
  // a lost control connection no pump is left; after that at most the last
  // one is, and it has lost its sender.
  lemma AtMostOnePump(events: seq<Event>)
    ensures var w := Run(START, events);
      && (forall i :: 0 <= i < |w.pumps| ==> w.pumps[i].closes == if w.pumps[i].finished then 1 else 0)
      && (forall i, j :: 0 <= i < j < |w.pumps| ==> w.pumps[i].finished || w.pumps[j].finished)
      && (w.phase.Ended? && w.phase.ending != ControlLost ==> forall i :: 0 <= i < |w.pumps| ==> w.pumps[i].finished)
      && (w.phase == Ended(ControlLost) ==>
            forall i :: 0 <= i < |w.pumps| ==> w.pumps[i].finished || !w.pumps[i].connected)
  {
    InvRun(START, events);
  }

  // No puller is lost but one: in every interleaving the pullers opened are
  // those closed and those of running pumps, and one more exactly when the
  // session has ended because a LOAD found no sink or decoder for what it
  // had opened.
  lemma PullersAccountedFor(events: seq<Event>)
    ensures var w := Run(START, events);
      w.pullers == Closed(w.pumps) + Running(w.pumps) + if w.phase == Ended(LoadFailed(NoOutput)) then 1 else 0
  {
    InvRun(START, events);
    CountPumps(Run(START, events).pumps);
  }

  // The command turns of one pump.
  function TurnsOf(events: seq<Event>, i: nat): nat
    decreases |events|
  {
    if events == [] then 0
    else (if events[0] == TakesCommand(i) then 1 else 0) + TurnsOf(events[1..], i)
  }

  lemma {:induction false} FinishedStays(w: World, events: seq<Event>, i: nat)
    requires Inv(w) && i < |w.pumps| && w.pumps[i].finished
    ensures i < |Run(w, events).pumps| && Run(w, events).pumps[i].finished
    decreases |events|
  {
    if events != [] {
      hide Inv;
      InvStep(w, events[0]);
      FinishedStep(w, events[0], i);
      FinishedStays(Next(w, events[0]), events[1..], i);
    }
  }

  lemma FinishedStep(w: World, e: Event, i: nat)
    requires Inv(w) && i < |w.pumps| && w.pumps[i].finished
    ensures i < |Next(w, e).pumps| && Next(w, e).pumps[i].finished
  {
  }

  // Nobody sends to a pump that has lost its sender, and each of its command
  // turns takes one command away or ends it.
  lemma DisconnectedStep(w: World, e: Event, i: nat)
    requires Inv(w) && i < |w.pumps| && !w.pumps[i].connected && !w.pumps[i].finished
    ensures var w' := Next(w, e);
      && i < |w'.pumps|
      && (w'.pumps[i].finished
          || (!w'.pumps[i].connected
              && |w'.pumps[i].mailbox| == |w.pumps[i].mailbox| - (if e == TakesCommand(i) then 1 else 0)))
  {
  }

  // A pump that has lost its sender, because the session joins it or has lost
  // its control connection, gets to its end: whatever packets, other pumps
  // and steps of the session come in between, it has ended once it has had
  // one command turn for each command waiting and one more.
  lemma {:induction false} DisconnectedPumpFinishes(w: World, events: seq<Event>, i: nat)
    requires Inv(w) && i < |w.pumps| && !w.pumps[i].connected
    requires TurnsOf(events, i) > |w.pumps[i].mailbox|
    ensures i < |Run(w, events).pumps| && Run(w, events).pumps[i].finished
    decreases |events|
  {
    if w.pumps[i].finished {
      FinishedStays(w, events, i);
    } else {
      hide Inv, Next;
      var w' := Next(w, events[0]);
      InvStep(w, events[0]);
      DisconnectedStep(w, events[0], i);
      if w'.pumps[i].finished {
        FinishedStays(w', events[1..], i);
      } else {
        DisconnectedPumpFinishes(w', events[1..], i);
      }
    }
  }

  // So a join always ends.
  lemma JoinedPumpFinishes(w: World, events: seq<Event>, i: nat)
    requires Inv(w) && w.phase.Joining? && w.current == Some(i)
    requires TurnsOf(events, i) > |w.pumps[i].mailbox|
    ensures i < |Run(w, events).pumps| && Run(w, events).pumps[i].finished
  {
    DisconnectedPumpFinishes(w, events, i);
  }

  // And once it has ended, the session's next step leaves the join for good:
  // it is ready for commands or has returned.
  lemma JoinLeaves(w: World, i: nat)
    requires Inv(w) && w.phase.Joining? && w.current == Some(i) && w.pumps[i].finished
    ensures Next(w, Joined).phase.Ready? || Next(w, Joined).phase.Ended?
  {
  }

  // A session that waits for room in the channel gets on after one command
  // turn of the pump at the latest.
  lemma SendLeaves(w: World, i: nat)
    requires Inv(w) && w.phase.Sending? && w.current == Some(i)
    ensures !Next(Next(w, TakesCommand(i)), Sends).phase.Sending?
  {
  }

  // ---------------------------------------------------------------------
  // What commands do.
  // ---------------------------------------------------------------------

  // Whether a pump plays after commands, told from the commands.
  function PlayingAfter(commands: seq<PumpCmd>, playing: bool): bool {
    if commands == [] then playing
    else
      match commands[|commands| - 1]
      case Play => true
      case Pause => false
      case _ => PlayingAfter(commands[..|commands| - 1], playing)
  }

  function CommandTurns(p: Pump, n: nat): Pump {
    if n == 0 then p else PumpCommand(CommandTurns(p, n - 1))
  }

  // A pump takes its commands in order, one a turn: it plays if the last Play
  // or Pause it took was a Play, and has ended once it took a Stop.
  lemma {:induction false} TakesInOrder(p: Pump, n: nat)
    requires !p.finished && n <= |p.mailbox|
    ensures var q := CommandTurns(p, n);
      && (q.finished <==> Stop in p.mailbox[..n])
      && (!q.finished ==> q.mailbox == p.mailbox[n..] && q.playing == PlayingAfter(p.mailbox[..n], p.playing))
  {
    if n > 0 {
      hide PumpCommand;
      TakesInOrder(p, n - 1);
      var before, taken := p.mailbox[..n - 1], p.mailbox[..n];
      assert taken == before + [p.mailbox[n - 1]] && taken[..n - 1] == before;
      var q := CommandTurns(p, n - 1);
      TakesOne(q);
      if !q.finished {
        assert q.mailbox[0] == p.mailbox[n - 1] && q.mailbox[1..] == p.mailbox[n..];
      }
    }
  }

  lemma TakesOne(q: Pump)
    ensures q.finished ==> PumpCommand(q) == q
    ensures !q.finished && q.mailbox != [] ==>
              var q' := PumpCommand(q);
              && (q'.finished <==> q.mailbox[0] == Stop) && q'.mailbox == q.mailbox[1..]
              && (!q'.finished ==> q'.playing == if q.mailbox[0] == Play then true
                                                 else if q.mailbox[0] == Pause then false else q.playing)
  {
  }

  // A pump that plays goes on after a packet and ends, closing its puller,
  // with the stream or on an error; one that does not play takes no packet.
  lemma TakesPackets(p: Pump, packet: Packet)
    requires !p.finished
    ensures PumpPacket(p, packet).finished <==> p.playing && (packet.EndOfStream? || packet.PullError?)
    ensures !PumpPacket(p, packet).finished ==> PumpPacket(p, packet) == p
  {
  }

  // The pump command that a control command is passed on as.
  function PassedOn(c: Command): Option<PumpCmd> {
    match c
    case CmdPlay => Some(Play)
    case CmdPause => Some(Pause)
    case CmdSeek => Some(Seek)
    case CmdLoad(_, _) => Some(Stop)
    case CmdStop => Some(Stop)
    case Cancel => Some(Stop)
    case _ => None
  }

  // A ready session with a running pump whose channel has room passes each
  // command on, behind those already waiting, and keeps the pump's sender
  // unless the pump is to end.
  lemma PassesOn(w: World, c: Command)
    requires Inv(w) && w.phase.Ready? && w.current.Some? && PassedOn(c).Some?
    requires var p := w.pumps[w.current.value]; !p.finished && |p.mailbox| < 8
    ensures var i, w' := w.current.value, Next(Next(w, Commands(c)), Sends);
      var p, p' := w.pumps[i], w'.pumps[i];
      && p' == p.(mailbox := p.mailbox + [PassedOn(c).value], connected := PassedOn(c) != Some(Stop))
      && w'.phase == (if PassedOn(c) == Some(Stop) then Joining(c) else Ready)
      && w'.pumps == w.pumps[i := p'] && w'.current == w.current
  {
  }

  // A LOAD that gets to a pump starts a new one, playing exactly if asked to;
  // a Stop leaves the session ready without one, and a cancel ends it.
  lemma AfterJoin(w: World, c: Command)
    requires Inv(w) && w.phase == Joining(c) && w.pumps[w.current.value].finished
    ensures var w' := Next(w, Joined);
      && (c.CmdLoad? && c.result.Loaded? ==>
            w'.phase == Ready && w'.current == Some(|w.pumps|)
            && w'.pumps == w.pumps + [Pump([], true, c.autoplay, false, 0)])
      && (c.CmdLoad? && !c.result.Loaded? ==> w'.phase == Ended(LoadFailed(c.result)) && w'.pumps == w.pumps)
      && (c.CmdStop? ==> w'.phase == Ready && w'.current == None && w'.pumps == w.pumps)
      && (c.Cancel? ==> w'.phase == Ended(Cancelled) && w'.pumps == w.pumps)
  {
  }

  // A ready session without a pump: a LOAD starts one at once or fails, a
  // cancel ends it, a lost control connection too, and nothing else changes it.
  lemma WithoutPump(w: World, c: Command)
    requires w.phase.Ready? && w.current.None?
    ensures var w' := Next(w, Commands(c));
      && (c.CmdLoad? && c.result.Loaded? ==>
            w'.phase == Ready && w'.current == Some(|w.pumps|)
            && w'.pumps == w.pumps + [Pump([], true, c.autoplay, false, 0)])
      && (c.CmdLoad? && !c.result.Loaded? ==> w'.phase == Ended(LoadFailed(c.result)) && w'.pumps == w.pumps)
      && (c.Cancel? ==> w'.phase == Ended(Cancelled) && w'.pumps == w.pumps)
      && (c.CmdFails? ==> w'.phase == Ended(ControlLost) && w'.pumps == w.pumps)
      && (!c.CmdLoad? && !c.Cancel? && !c.CmdFails? ==> w' == w)
  {
  }

  // Commands that are not routed change nothing; a lost control connection
  // ends the session and gives the sender up without a Stop.
  lemma OtherCommands(w: World)
    requires Inv(w) && w.phase.Ready? && w.current.Some?
    ensures Next(w, Commands(CmdOther)) == w
    ensures var w', i := Next(w, Commands(CmdFails)), w.current.value;
      && w'.phase == Ended(ControlLost) && w'.pumps == w.pumps[i := w.pumps[i].(connected := false)]
  {
  }
}
