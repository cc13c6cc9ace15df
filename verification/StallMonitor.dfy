/** The stall protocol: servers send stall and unstall commands to the monitor thread through
    pipes; the monitor drives the CPU, polls it, and tells every registered server what happened.
    Modelled as a state machine whose steps are the points where threads can interleave. */
module StallMonitor {

  const MAX_MONITOR_CONNECTIONS: nat := 5

  /** `Other` is any character that is no command. */
  datatype Command = Stall | Unstall | Other

  datatype Event = Halted | Running

  /** One registered server: its two pipes, its own idea of the target, and whether it has been
      sent an event since it registered. */
  datatype Listener = Listener(commands: seq<Command>, events: seq<Event>, believesRunning: bool, told: bool)

  /** Where the monitor thread is.  From `Scan` to `Notify` it holds the pipes mutex. */
  datatype Pc =
    | Head                             // about to select()
    | HaltFound                        // the poll saw the stall bit; mutex not yet taken
    | Scan(i: nat)                     // looking at connection i
    | Written(stall: bool, i: nat)     // control register written, flag not yet changed
    | Notify(event: Event, k: nat, back: Back)

  /** Where to go after a notification. */
  datatype Back = ToScan(i: nat) | ToHead

  datatype State = State(
    cpuStalled: bool, targetIsRunning: bool, listeners: seq<Listener>, pc: Pc)

  datatype Action =
    | Send(l: nat, cmd: Command)       // a server writes a command
    | Take(l: nat)                     // a server reads an event
    | Register(believesRunning: bool)
    | Unregister(l: nat)
    | CpuStops                         // a breakpoint stalls the CPU
    | SelectData                       // select() reports ready pipes
    | SelectTimeout(polled: bool)      // it times out; poll if running, `polled` if that succeeds
    | SkipConnection                   // connection not in the ready set
    | ReadCommand(written: bool)       // read and act; `written` if a control write succeeds
    | SetFlag
    | LockAfterPoll
    | NotifyNext

  predicate MutexFree(s: State) {
    s.pc == Head || s.pc == HaltFound
  }

  predicate Enabled(s: State, a: Action) {
    match a
    case Send(l, _) => l < |s.listeners|
    case Take(l) => l < |s.listeners| && |s.listeners[l].events| > 0
    case Register(_) => MutexFree(s) && |s.listeners| < MAX_MONITOR_CONNECTIONS
    case Unregister(l) => MutexFree(s) && l < |s.listeners|
    case CpuStops => true
    case SelectData => s.pc == Head
    case SelectTimeout(_) => s.pc == Head
    case SkipConnection => s.pc.Scan?
    case ReadCommand(_) => s.pc.Scan? && s.pc.i < |s.listeners| && |s.listeners[s.pc.i].commands| > 0
    case SetFlag => s.pc.Written?
    case LockAfterPoll => s.pc == HaltFound
    case NotifyNext => s.pc.Notify?
  }

  function Tell(l: Listener, e: Event): Listener {
    l.(events := l.events + [e], told := true)
  }

  /** The last entry is moved into the vacated place. */
  function Removed(ls: seq<Listener>, l: nat): seq<Listener>
    requires l < |ls|
  {
    var n := |ls| - 1;
    if l == n then ls[..n] else ls[l := ls[n]][..n]
  }

  function Obey(s: State, i: nat, cmd: Command, written: bool): State {
    match cmd
    case Stall =>
      if s.targetIsRunning then s.(cpuStalled := s.cpuStalled || written, pc := Written(true, i))
      else s.(pc := Notify(Halted, 0, ToScan(i + 1)))
    case Unstall =>
      if !s.targetIsRunning then s.(cpuStalled := s.cpuStalled && !written, pc := Written(false, i))
      else s.(pc := Notify(Running, 0, ToScan(i + 1)))
    case Other => s.(pc := Scan(i + 1))
  }

  function Do(s: State, a: Action): State
    requires Enabled(s, a)
  {
    match a
    case Send(l, cmd) =>
      s.(listeners := s.listeners[l := s.listeners[l].(commands := s.listeners[l].commands + [cmd])])
    case Take(l) =>
      var x := s.listeners[l];
      s.(listeners := s.listeners[l := x.(events := x.events[1..], believesRunning := x.events[0] == Running)])
    case Register(b) => s.(listeners := s.listeners + [Listener([], [], b, false)])
    case Unregister(l) => s.(listeners := Removed(s.listeners, l))
    case CpuStops => s.(cpuStalled := true)
    case SelectData => s.(pc := Scan(0))
    case SelectTimeout(polled) =>
      if s.targetIsRunning && polled && s.cpuStalled then s.(targetIsRunning := false, pc := HaltFound) else s
    case SkipConnection => if s.pc.i < |s.listeners| then s.(pc := Scan(s.pc.i + 1)) else s.(pc := Head)
    case ReadCommand(written) =>
      var i := s.pc.i;
      var x := s.listeners[i];
      Obey(s.(listeners := s.listeners[i := x.(commands := x.commands[1..])]), i, x.commands[0], written)
    case SetFlag =>
      s.(targetIsRunning := !s.pc.stall,
         pc := Notify(if s.pc.stall then Halted else Running, 0, ToScan(s.pc.i + 1)))
    case LockAfterPoll => s.(pc := Notify(Halted, 0, ToHead))
    case NotifyNext =>
      var k := s.pc.k;
      if k < |s.listeners| then
        s.(listeners := s.listeners[k := Tell(s.listeners[k], s.pc.event)], pc := s.pc.(k := k + 1))
      else s.(pc := if s.pc.back.ToHead? then Head else Scan(s.pc.back.i))
  }

  // ------------------------------------------------------------------ the invariant

  /** What the server will believe once it has read its pending events. */
  function Outlook(l: Listener): bool {
    if |l.events| == 0 then l.believesRunning else l.events[|l.events| - 1] == Running
  }

  predicate Agrees(l: Listener, running: bool) {
    l.told ==> Outlook(l) == running
  }

  /** The listeners that must already agree at this point of the monitor thread. */
  function Settled(s: State): nat {
    match s.pc
    case Head => |s.listeners|
    case Scan(_) => |s.listeners|
    case Notify(_, k, _) => if k <= |s.listeners| then k else |s.listeners|
    case _ => 0
  }

  /** What the threads know of each other, whatever the hardware does. */
  ghost predicate Consistent(s: State) {
    && (s.pc.Written? ==> s.targetIsRunning == s.pc.stall)
    && (s.pc.Notify? ==> s.targetIsRunning == (s.pc.event == Running))
    && (s.pc == HaltFound ==> !s.targetIsRunning)
    && (forall l :: 0 <= l < Settled(s) ==> Agrees(s.listeners[l], s.targetIsRunning))
  }

  /** A halted flag means a halted CPU, except while an unstall is being carried out. */
  predicate FlagTells(s: State) {
    && (!s.targetIsRunning && !(s.pc.Written? && !s.pc.stall) ==> s.cpuStalled)
    && (s.pc.Written? && s.pc.stall ==> s.cpuStalled)
  }

  ghost predicate Inv(s: State) {
    Consistent(s) && FlagTells(s)
  }

  predicate IsMonitorAction(a: Action) {
    !(a.Send? || a.Take? || a.CpuStops? || a.Register? || a.Unregister?)
  }

  lemma MonitorKeepsConsistent(s: State, a: Action)
    requires Consistent(s) && Enabled(s, a) && IsMonitorAction(a)
    ensures Consistent(Do(s, a))
  {
  }

  lemma OthersKeepConsistent(s: State, a: Action)
    requires Consistent(s) && Enabled(s, a) && !IsMonitorAction(a)
    ensures Consistent(Do(s, a))
  {
  }

  /** Every step of every thread and of the hardware keeps the threads consistent. */
  lemma StepKeepsConsistent(s: State, a: Action)
    requires Consistent(s) && Enabled(s, a)
    ensures Consistent(Do(s, a))
  {
    if IsMonitorAction(a) {
      MonitorKeepsConsistent(s, a);
    } else {
      OthersKeepConsistent(s, a);
    }
  }

  lemma ServerStep(s: State, a: Action)
    requires Inv(s) && Enabled(s, a) && (a.Send? || a.Take? || a.CpuStops?)
    ensures Inv(Do(s, a))
  {
  }

  lemma RegistrationStep(s: State, a: Action)
    requires Inv(s) && Enabled(s, a) && (a.Register? || a.Unregister?)
    ensures Inv(Do(s, a))
  {
  }

  /** A control write that stalls the running CPU fails. */
  predicate StallWriteFails(s: State, a: Action)
    requires Enabled(s, a)
  {
    && a.ReadCommand? && !a.written && s.targetIsRunning && !s.cpuStalled
    && s.listeners[s.pc.i].commands[0] == Stall
  }

  lemma MonitorStep(s: State, a: Action)
    requires Inv(s) && Enabled(s, a) && IsMonitorAction(a)
    ensures Inv(Do(s, a)) <==> !StallWriteFails(s, a)
  {
    MonitorKeepsConsistent(s, a);
    if a.ReadCommand? {
      ReadKeepsFlag(s, a);
    } else {
      OthersKeepFlag(s, a);
    }
  }

  lemma ReadKeepsFlag(s: State, a: Action)
    requires Inv(s) && Enabled(s, a) && a.ReadCommand?
    ensures FlagTells(Do(s, a)) <==> !StallWriteFails(s, a)
  {
  }

  lemma OthersKeepFlag(s: State, a: Action)
    requires Inv(s) && Enabled(s, a) && IsMonitorAction(a) && !a.ReadCommand?
    ensures FlagTells(Do(s, a))
  {
  }

  /** Each step keeps the invariant, unless it is a stall command whose control write fails while
      the CPU runs; that one always breaks it. */
  lemma StepKeepsInvExactly(s: State, a: Action)
    requires Inv(s) && Enabled(s, a)
    ensures Inv(Do(s, a)) <==> !StallWriteFails(s, a)
  {
    if IsMonitorAction(a) {
      MonitorStep(s, a);
    } else if a.Register? || a.Unregister? {
      RegistrationStep(s, a);
    } else {
      ServerStep(s, a);
    }
  }

  // ------------------------------------------------------------------ runs

  /** The monitor starts by assuming that the target runs. */
  predicate Initial(s: State) {
    s.targetIsRunning && s.listeners == [] && s.pc == Head
  }

  /** A run: one action after the other, in any order and with any outcome. */
  ghost predicate IsRun(states: seq<State>, actions: seq<Action>) {
    && |states| == |actions| + 1 && Initial(states[0])
    && forall n :: 0 <= n < |actions| ==> Enabled(states[n], actions[n]) && states[n + 1] == Do(states[n], actions[n])
  }

  /** No stall write fails while the CPU runs, in the first `n` actions. */
  ghost predicate StallWritesReach(states: seq<State>, actions: seq<Action>, n: nat)
    requires IsRun(states, actions) && n < |states|
  {
    forall k :: 0 <= k < n ==> !StallWriteFails(states[k], actions[k])
  }

  lemma {:induction false} RunKeepsConsistent(states: seq<State>, actions: seq<Action>, n: nat)
    requires IsRun(states, actions) && n < |states|
    ensures Consistent(states[n])
  {
    if n > 0 {
      RunKeepsConsistent(states, actions, n - 1);
      StepKeepsConsistent(states[n - 1], actions[n - 1]);
    }
  }

  lemma {:induction false} RunKeepsInv(states: seq<State>, actions: seq<Action>, n: nat)
    requires IsRun(states, actions) && n < |states| && StallWritesReach(states, actions, n)
    ensures Inv(states[n])
  {
    if n > 0 {
      RunKeepsInv(states, actions, n - 1);
      StepKeepsInvExactly(states[n - 1], actions[n - 1]);
    }
  }

  /** In every interleaving: the invariant holds up to step `n` if and only if every stall write so far
      has reached the CPU, or found it stopped. */
  lemma InvExactly(states: seq<State>, actions: seq<Action>, n: nat)
    requires IsRun(states, actions) && n < |states|
    ensures (forall k :: 0 <= k <= n ==> Inv(states[k])) <==> StallWritesReach(states, actions, n)
  {
    if StallWritesReach(states, actions, n) {
      forall k | 0 <= k <= n ensures Inv(states[k]) {
        RunKeepsInv(states, actions, k);
      }
    } else {
      var k :| 0 <= k < n && StallWriteFails(states[k], actions[k]);
      if Inv(states[k]) {
        StepKeepsInvExactly(states[k], actions[k]);
      }
      assert !(Inv(states[k]) && Inv(states[k + 1]));
    }
  }

  /** If every stall write has reached the CPU: outside the window in which an unstall is being carried
      out, a cleared running flag means that the CPU is stalled. */
  lemma HaltedMeansStalled(states: seq<State>, actions: seq<Action>, n: nat)
    requires IsRun(states, actions) && n < |states| && StallWritesReach(states, actions, n)
    ensures !states[n].targetIsRunning && states[n].pc != Written(false, if states[n].pc.Written? then states[n].pc.i else 0)
        ==> states[n].cpuStalled
  {
    RunKeepsInv(states, actions, n);
  }

  // ------------------------------------------------------------------ the stale window

  /** The flag says halted and the CPU runs. */
  predicate Stale(s: State) {
    !s.targetIsRunning && !s.cpuStalled
  }

  /** The flag becomes stale: an unstall command is obeyed and its control write reaches the CPU, or a
      stall has been written in vain and the flag is cleared nevertheless. */
  predicate Opens(s: State, a: Action)
    requires Enabled(s, a)
  {
    || (a.ReadCommand? && a.written && !s.targetIsRunning && s.listeners[s.pc.i].commands[0] == Unstall)
    || (a.SetFlag? && s.pc.stall && !s.cpuStalled)
  }

  /** The running flag is set again, or the CPU stops by itself. */
  predicate Closes(s: State, a: Action)
    requires Enabled(s, a)
  {
    (a.SetFlag? && !s.pc.stall) || a.CpuStops?
  }

  /** One step makes the flag stale, or leaves it so, exactly in these cases. */
  lemma StaleStep(s: State, a: Action)
    requires Consistent(s) && Enabled(s, a)
    ensures Stale(Do(s, a)) <==> if Stale(s) then !Closes(s, a) else Opens(s, a)
  {
  }

  /** Step `k` opened the window, and nothing has closed it before step `n`. */
  ghost predicate OpenSince(states: seq<State>, actions: seq<Action>, k: nat, n: nat)
    requires IsRun(states, actions) && n < |states|
  {
    && k < n && Opens(states[k], actions[k])
    && forall j :: k < j < n ==> !Closes(states[j], actions[j])
  }

  ghost predicate WindowOpen(states: seq<State>, actions: seq<Action>, n: nat)
    requires IsRun(states, actions) && n < |states|
  {
    exists k: nat :: OpenSince(states, actions, k, n)
  }

  lemma WindowStep(states: seq<State>, actions: seq<Action>, n: nat)
    requires IsRun(states, actions) && 0 < n < |states|
    ensures var s, a := states[n - 1], actions[n - 1];
            WindowOpen(states, actions, n) <==> if WindowOpen(states, actions, n - 1) then !Closes(s, a) else Opens(s, a)
  {
    if WindowOpen(states, actions, n - 1) {
      var k: nat :| OpenSince(states, actions, k, n - 1);
      if !Closes(states[n - 1], actions[n - 1]) {
        assert OpenSince(states, actions, k, n);
      }
    } else if Opens(states[n - 1], actions[n - 1]) {
      assert OpenSince(states, actions, n - 1, n);
    }
    if WindowOpen(states, actions, n) {
      var k: nat :| OpenSince(states, actions, k, n);
      assert k < n - 1 ==> OpenSince(states, actions, k, n - 1);
    }
  }

  /** In every interleaving, whatever the control writes do: the flag is stale exactly while an unstall
      has reached the CPU, or the flag has been cleared after a stall that did not, and since then
      neither has the flag been set again nor the CPU stopped by itself. */
  lemma {:induction false} StaleExactly(states: seq<State>, actions: seq<Action>, n: nat)
    requires IsRun(states, actions) && n < |states|
    ensures Stale(states[n]) <==> WindowOpen(states, actions, n)
  {
    if n > 0 {
      StaleExactly(states, actions, n - 1);
      RunKeepsConsistent(states, actions, n - 1);
      StaleStep(states[n - 1], actions[n - 1]);
      WindowStep(states, actions, n);
    }
  }

  /** In every interleaving, whenever the monitor is at its loop head: a server that has been sent
      an event will, once it has read its pipe, believe what the monitor believes.  If it then
      believes the target halted, the CPU is stalled exactly if the flag is not stale, as when every
      stall write has reached the CPU. */
  lemma ServersAgree(states: seq<State>, actions: seq<Action>, n: nat, l: nat)
    requires IsRun(states, actions) && n < |states|
    requires states[n].pc == Head && l < |states[n].listeners| && states[n].listeners[l].told
    ensures Outlook(states[n].listeners[l]) == states[n].targetIsRunning
    ensures !Outlook(states[n].listeners[l]) ==> (states[n].cpuStalled <==> !WindowOpen(states, actions, n))
    ensures !Outlook(states[n].listeners[l]) && StallWritesReach(states, actions, n) ==> states[n].cpuStalled
  {
    RunKeepsConsistent(states, actions, n);
    StaleExactly(states, actions, n);
    if StallWritesReach(states, actions, n) {
      RunKeepsInv(states, actions, n);
    }
  }

  /** A run with one action more. */
  lemma Act(states: seq<State>, actions: seq<Action>, a: Action) returns (longer: seq<State>, more: seq<Action>)
    requires IsRun(states, actions) && Enabled(states[|actions|], a)
    ensures more == actions + [a] && IsRun(longer, more) && longer[|more|] == Do(states[|actions|], a)
  {
    longer, more := states + [Do(states[|actions|], a)], actions + [a];
  }

  /** The window is real: while an unstall is carried out the flag is stale. */
  lemma WindowExists() returns (states: seq<State>, actions: seq<Action>)
    ensures IsRun(states, actions)
    ensures states[|actions|].pc == Written(false, 0) && Stale(states[|actions|])
  {
    states, actions := PollHalts(State(true, true, [], Head));
    states, actions := Act(states, actions, Register(true));
    states, actions := Act(states, actions, Send(0, Unstall));
    states, actions := Act(states, actions, SelectData);
    states, actions := Act(states, actions, ReadCommand(true));
  }

  /** Not every state inside the window is stale: the CPU may have stopped by itself again. */
  lemma WindowNotAlwaysStale() returns (states: seq<State>, actions: seq<Action>)
    ensures IsRun(states, actions)
    ensures states[|actions|].pc == Written(false, 0) && !states[|actions|].targetIsRunning
    ensures !Stale(states[|actions|])
  {
    states, actions := WindowExists();
    states, actions := Act(states, actions, CpuStops);
  }

  /** A stall command whose control write fails: the flag is cleared, the servers are told that the
      target halted, and the CPU runs on, with no unstall anywhere. */
  lemma FailedStallIsStale() returns (states: seq<State>, actions: seq<Action>)
    ensures IsRun(states, actions) && Stale(states[|actions|])
    ensures states[|actions|].pc == Notify(Halted, 0, ToScan(1))
    ensures forall a :: a in actions ==> !(a.Send? && a.cmd == Unstall)
  {
    states, actions := [State(false, true, [], Head)], [];
    states, actions := Act(states, actions, Register(true));
    states, actions := Act(states, actions, Send(0, Stall));
    states, actions := Act(states, actions, SelectData);
    states, actions := Act(states, actions, ReadCommand(false));
    states, actions := Act(states, actions, SetFlag);
  }

  /** A poll that finds the CPU stalled, with no server to tell. */
  lemma PollHalts(start: State) returns (states: seq<State>, actions: seq<Action>)
    requires start == State(true, true, [], Head)
    ensures IsRun(states, actions) && states[|actions|] == State(true, false, [], Head)
  {
    states, actions := [start], [];
    states, actions := Act(states, actions, SelectTimeout(true));
    states, actions := Act(states, actions, LockAfterPoll);
    states, actions := Act(states, actions, NotifyNext);
  }

  // ------------------------------------------------------------------ notification

  /** `n` consecutive notification steps. */
  function NotifyTimes(s: State, n: nat): State
    requires s.pc.Notify? && s.pc.k + n <= |s.listeners|
    decreases n
  {
    if n == 0 then s else NotifyTimes(Do(s, NotifyNext), n - 1)
  }

  /** One round of notifications reaches every registered server. */
  lemma {:induction false} NotifyReachesAll(s: State, n: nat)
    requires s.pc.Notify? && s.pc.k + n == |s.listeners|
    requires forall l :: 0 <= l < s.pc.k ==> s.listeners[l].told && Outlook(s.listeners[l]) == (s.pc.event == Running)
    ensures var r := NotifyTimes(s, n);
            && |r.listeners| == |s.listeners| && r.pc == s.pc.(k := |s.listeners|)
            && forall l :: 0 <= l < |r.listeners| ==>
                 r.listeners[l].told && Outlook(r.listeners[l]) == (s.pc.event == Running)
    decreases n
  {
    if n > 0 {
      NotifyReachesAll(Do(s, NotifyNext), n - 1);
    }
  }

  // ------------------------------------------------------------------ whole reactions of the monitor

  /** The events that a notification round sends. */
  lemma {:induction false} NotifyAppends(s: State, n: nat)
    requires s.pc.Notify? && s.pc.k + n == |s.listeners|
    ensures var r := NotifyTimes(s, n);
            && r == s.(listeners := r.listeners, pc := s.pc.(k := |s.listeners|)) && |r.listeners| == |s.listeners|
            && forall l :: 0 <= l < |s.listeners| ==>
                 r.listeners[l] == if l < s.pc.k then s.listeners[l]
                                   else s.listeners[l].(events := s.listeners[l].events + [s.pc.event], told := true)
    decreases n
  {
    if n > 0 {
      NotifyAppends(Do(s, NotifyNext), n - 1);
    }
  }

  /** A whole round of notifications, to its end. */
  function Round(s: State): State
    requires s.pc.Notify? && s.pc.k == 0
  {
    NotifyAppends(s, |s.listeners|);
    Do(NotifyTimes(s, |s.listeners|), NotifyNext)
  }

  /** Every listener of `t` is that of `s` with `e` behind its events. */
  ghost predicate ToldAll(s: State, t: State, e: Event) {
    && |t.listeners| == |s.listeners|
    && forall l :: 0 <= l < |s.listeners| ==>
         t.listeners[l] == s.listeners[l].(events := s.listeners[l].events + [e], told := true)
  }

  lemma RoundTells(s: State)
    requires s.pc.Notify? && s.pc.k == 0
    ensures var r := Round(s);
            && ToldAll(s, r, s.pc.event) && r.cpuStalled == s.cpuStalled && r.targetIsRunning == s.targetIsRunning
            && r.pc == (if s.pc.back.ToHead? then Head else Scan(s.pc.back.i))
  {
    NotifyAppends(s, |s.listeners|);
  }

  /** The state with the first command of connection `i` taken out of its pipe. */
  function Taken(s: State, i: nat): State
    requires i < |s.listeners| && |s.listeners[i].commands| > 0
  {
    s.(listeners := s.listeners[i := s.listeners[i].(commands := s.listeners[i].commands[1..])])
  }

  /** What the monitor makes of the command it has just read, up to the next connection. */
  function Reaction(s: State, written: bool): State
    requires Enabled(s, ReadCommand(written)) && s.listeners[s.pc.i].commands[0] != Other
  {
    var t := Do(s, ReadCommand(written));
    Round(if t.pc.Written? then Do(t, SetFlag) else t)
  }

  /** A command reaches the CPU if the flag says that it has something to change and the write succeeds;
      in any case the flag says afterwards what was asked for, and all servers are told so, also when
      nothing had to be done. */
  lemma CommandObeyed(s: State, written: bool)
    requires Enabled(s, ReadCommand(written)) && s.listeners[s.pc.i].commands[0] != Other
    ensures var i, unstall, r := s.pc.i, s.listeners[s.pc.i].commands[0] == Unstall, Reaction(s, written);
            && r.pc == Scan(i + 1) && r.targetIsRunning == unstall
            && ToldAll(Taken(s, i), r, if unstall then Running else Halted)
            && r.cpuStalled == if written && s.targetIsRunning != unstall then !unstall else s.cpuStalled
  {
    var t := Do(s, ReadCommand(written));
    RoundTells(if t.pc.Written? then Do(t, SetFlag) else t);
  }

  /** A character that is no command is skipped. */
  lemma OtherSkipped(s: State, written: bool)
    requires Enabled(s, ReadCommand(written)) && s.listeners[s.pc.i].commands[0] == Other
    ensures Do(s, ReadCommand(written)) == Taken(s, s.pc.i).(pc := Scan(s.pc.i + 1))
  {
  }

  /** A timeout looks at the CPU only while the flag says that it runs; a halt it finds clears the flag and is
      told to all servers, and nothing else happens. */
  lemma HaltReported(s: State, polled: bool)
    requires s.pc == Head
    ensures var t := Do(s, SelectTimeout(polled));
            if s.targetIsRunning && polled && s.cpuStalled then
              && t.pc == HaltFound
              && var r := Round(Do(t, LockAfterPoll));
                 r.pc == Head && !r.targetIsRunning && r.cpuStalled && ToldAll(s, r, Halted)
            else t == s
  {
    var t := Do(s, SelectTimeout(polled));
    if t.pc == HaltFound {
      RoundTells(Do(t, LockAfterPoll));
    }
  }

  // ------------------------------------------------------------------ a scan of all connections

  /** The last connection that the monitor has looked at in this scan. */
  function Position(pc: Pc): int {
    match pc
    case Scan(i) => i
    case Written(_, i) => i
    case Notify(_, _, ToScan(i)) => i - 1
    case _ => -1
  }

  predicate Scanning(pc: Pc) {
    pc.Scan? || pc.Written? || (pc.Notify? && pc.back.ToScan?)
  }

  /** Between states `m` and `n` the monitor looks at connection `l`. */
  ghost predicate Visited(states: seq<State>, m: nat, n: nat, l: int) {
    exists j :: m < j <= n < |states| && 0 <= l && states[j].pc == Scan(l)
  }

  /** `t` is at most one connection further than `s`, and at the loop head only behind the last one. */
  predicate MovesOn(s: State, t: State) {
    if t.pc == Head then Position(s.pc) >= |s.listeners|
    else && Scanning(t.pc) && |t.listeners| == |s.listeners|
         && (Position(t.pc) <= Position(s.pc) || t.pc == Scan(Position(s.pc) + 1))
  }

  /** No step of a scan skips a connection. */
  lemma ScanStep(s: State, a: Action)
    requires Enabled(s, a) && Scanning(s.pc)
    ensures MovesOn(s, Do(s, a))
  {
  }

  /** All connections up to `last` have been looked at. */
  ghost predicate VisitedUpTo(states: seq<State>, m: nat, n: nat, last: int) {
    forall l :: 0 <= l <= last ==> Visited(states, m, n, l)
  }

  lemma VisitedLater(states: seq<State>, m: nat, n: nat, n': nat, l: int)
    requires Visited(states, m, n, l) && n <= n' < |states|
    ensures Visited(states, m, n', l)
  {
    var j :| m < j <= n < |states| && 0 <= l && states[j].pc == Scan(l);
    assert m < j <= n';
  }

  lemma VisitsGrow(states: seq<State>, m: nat, n: nat, last: int, n': nat, next: int)
    requires m <= n < n' < |states| && VisitedUpTo(states, m, n, last) && last >= -1
    requires next <= last || (next == last + 1 && states[n'].pc == Scan(next))
    ensures VisitedUpTo(states, m, n', next)
  {
    forall l | 0 <= l <= next ensures Visited(states, m, n', l) {
      if l <= last {
        VisitedLater(states, m, n, n', l);
      }
    }
  }

  lemma ScanStepInRun(states: seq<State>, actions: seq<Action>, k: nat, n: nat)
    requires IsRun(states, actions) && k < |actions| && n == k + 1
    ensures Scanning(states[k].pc) ==> MovesOn(states[k], states[n])
    ensures actions[k] == SelectData ==> states[n].pc == Scan(0) && |states[n].listeners| == |states[k].listeners|
  {
    assert Enabled(states[k], actions[k]) && states[k + 1] == Do(states[k], actions[k]);
    if Scanning(states[k].pc) {
      ScanStep(states[k], actions[k]);
    }
  }

  lemma {:induction false} ScanVisits(states: seq<State>, actions: seq<Action>, m: nat, n: nat)
    requires IsRun(states, actions) && m < n < |states| && actions[m] == SelectData
    requires forall j :: m < j <= n ==> states[j].pc != Head
    ensures Scanning(states[n].pc) && |states[n].listeners| == |states[m].listeners|
    ensures VisitedUpTo(states, m, n, Position(states[n].pc))
  {
    var k := n - 1;
    ScanStepInRun(states, actions, k, n);
    if k == m {
      VisitsGrow(states, m, m, -1, n, 0);
    } else {
      ScanVisits(states, actions, m, k);
      PositionBound(states[k].pc);
      VisitsGrow(states, m, k, Position(states[k].pc), n, Position(states[n].pc));
    }
  }

  lemma PositionBound(pc: Pc)
    ensures Position(pc) >= -1
  {
  }

  /** In every interleaving: between a select that reports data and the next loop head the monitor looks at every
      registered connection. */
  lemma ScanComplete(states: seq<State>, actions: seq<Action>, m: nat, n: nat, l: nat)
    requires IsRun(states, actions) && m < n < |actions| && actions[m] == SelectData
    requires (forall j :: m < j <= n ==> states[j].pc != Head) && states[n + 1].pc == Head
    requires l < |states[m].listeners|
    ensures Visited(states, m, n, l)
  {
    ScanVisits(states, actions, m, n);
    ScanStepInRun(states, actions, n, n + 1);
  }

  // ------------------------------------------------------------------ registration

  /** Unregistering drops the named server and keeps all others with their pipes. */
  lemma UnregisterDrops(s: State, l: nat)
    requires Enabled(s, Unregister(l))
    ensures var t := Do(s, Unregister(l));
            && t == s.(listeners := t.listeners)
            && multiset(t.listeners) == multiset(s.listeners) - multiset{s.listeners[l]}
            && forall j :: 0 <= j < |t.listeners| && j != l ==> t.listeners[j] == s.listeners[j]
  {
    RemovedKeeps(s.listeners, l);
  }

  lemma RemovedKeeps(ls: seq<Listener>, l: nat)
    requires l < |ls|
    ensures multiset(Removed(ls, l)) == multiset(ls) - multiset{ls[l]}
  {
    var n := |ls| - 1;
    if l == n {
      assert ls == ls[..n] + [ls[n]];
    } else {
      var a, x, b, y := ls[..l], ls[l], ls[l + 1..n], ls[n];
      assert ls == a + [x] + b + [y];
      assert Removed(ls, l) == a + [y] + b;
      Exchanged(a, x, b, y);
    }
  }

  lemma Exchanged(a: seq<Listener>, x: Listener, b: seq<Listener>, y: Listener)
    ensures multiset(a + [y] + b) == multiset(a + [x] + b + [y]) - multiset{x}
  {
  }

  /** No more than five servers are ever registered. */
  lemma {:induction false} AtMostFive(states: seq<State>, actions: seq<Action>, n: nat)
    requires IsRun(states, actions) && n < |states|
    ensures |states[n].listeners| <= 5
  {
    if n > 0 {
      AtMostFive(states, actions, n - 1);
      ListenersGrow(states[n - 1], actions[n - 1]);
    }
  }

  lemma ListenersGrow(s: State, a: Action)
    requires Enabled(s, a)
    ensures |Do(s, a).listeners| <= if a.Register? then |s.listeners| + 1 else |s.listeners|
  {
  }
}
