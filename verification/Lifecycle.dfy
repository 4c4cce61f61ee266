/** Starting and stopping the server's threads, as steps.  One controlling thread calls
    initialize, start and stop; the worker threads and the server thread take their own
    steps in between, in any order. */
module Lifecycle {
  import opened Octets

  // Where a thread is: at the test of running_, about to call recvfrom (the server thread),
  // asleep or blocked in recvfrom on an open socket, handling a request, returned, or joined.
  datatype Pc = Guard | Calling | Waiting | Handling | Returned | Joined

  // Where the controlling thread is: between calls, in start with k workers spawned, or in
  // stop about to close the socket, to join the server, or to join worker k.
  datatype Control = Idle | Spawning(k: nat) | Closing | JoiningServer | JoiningWorkers(k: nat)

  // The number of workers, and whether closing a socket wakes a recvfrom that is blocked on
  // it.  Linux does not: the blocked call keeps its reference to the socket.
  datatype Setup = Setup(pool: nat, wakes: bool)

  /** open says that server_socket_ is a socket; server and workers are the threads behind
      server_thread_ and worker_threads_; spawned, joined and handled count what has
      happened so far. */
  datatype State = State(
    running: bool,
    open: bool,
    server: Option<Pc>,
    workers: seq<Pc>,
    control: Control,
    spawned: nat,
    joined: nat,
    handled: nat)

  // What reaches a blocked recvfrom: nothing, a datagram that is empty or does not parse,
  // or a request.
  datatype Arrival = Nothing | Junk | Request

  datatype Action =
    | Initialize | CallStart | Spawn
    | CallStop | CloseSocket | Join
    | WorkerStep(i: nat)
    | ServerStep(arrival: Arrival)

  const INITIAL: State := State(false, false, None, [], Idle, 0, 0, 0)

  predicate NeedsDatagram(a: Action) {
    a.ServerStep? && a.arrival != Nothing
  }

  // ------------------------------------------------------------ steps

  function WorkerLoop(running: bool, pc: Pc): Option<Pc> {
    match pc
    case Guard => Some(if running then Waiting else Returned)
    case Waiting => Some(Guard)
    case _ => None
  }

  /** The server thread's next place.  On a closed socket recvfrom fails at once; blocked on
      an open one, it returns for a datagram, or empty-handed if the socket is closed in
      the meantime and that wakes it. */
  function ServerLoop(p: Setup, s: State, pc: Pc, arrival: Arrival): Option<Pc> {
    if pc == Waiting then
      match arrival
      case Request => Some(Handling)
      case Junk => Some(Guard)
      case Nothing => if p.wakes && !s.open then Some(Guard) else None
    else if arrival != Nothing then None
    else
      match pc
      case Guard => Some(if s.running then Calling else Returned)
      case Calling => Some(if s.open then Waiting else Guard)
      case Handling => Some(Guard)
      case _ => None
  }

  /** The state after an action, None where it cannot happen. */
  function Step(p: Setup, s: State, a: Action): Option<State> {
    match a
    case Initialize =>
      if s.control != Idle || s.open then None else Some(s.(open := true))
    case CallStart =>
      if s.control != Idle then None
      else if s.running then Some(s)
      else Some(s.(running := true, control := Spawning(0)))
    case Spawn =>
      if !s.control.Spawning? then None
      else if s.control.k < p.pool then
        Some(s.(workers := s.workers + [Guard], spawned := s.spawned + 1, control := Spawning(s.control.k + 1)))
      else Some(s.(server := Some(Guard), spawned := s.spawned + 1, control := Idle))
    case CallStop =>
      if s.control != Idle then None
      else if !s.running then Some(s)
      else Some(s.(running := false, control := Closing))
    case CloseSocket =>
      if s.control != Closing then None else Some(s.(open := false, control := JoiningServer))
    case Join =>
      (match s.control
       case JoiningServer =>
         if s.server == Some(Returned) then
           Some(s.(server := None, joined := s.joined + 1, control := JoiningWorkers(0)))
         else if s.server == None then Some(s.(control := JoiningWorkers(0)))
         else None
       case JoiningWorkers(k) =>
         if k >= |s.workers| then Some(s.(workers := [], control := Idle))
         else if s.workers[k] == Returned then
           Some(s.(workers := s.workers[k := Joined], joined := s.joined + 1, control := JoiningWorkers(k + 1)))
         else None
       case _ => None)
    case WorkerStep(i) =>
      if i >= |s.workers| then None
      else
        (match WorkerLoop(s.running, s.workers[i])
         case None => None
         case Some(pc) => Some(s.(workers := s.workers[i := pc])))
    case ServerStep(arrival) =>
      if s.server.None? then None
      else
        match ServerLoop(p, s, s.server.value, arrival)
        case None => None
        case Some(pc) =>
          Some(s.(server := Some(pc), handled := if s.server.value == Handling then s.handled + 1 else s.handled))
  }

  /** s is reached from the state t by the actions, each possible when its turn comes. */
  predicate Leads(p: Setup, t: State, actions: seq<Action>, s: State)
    decreases |actions|
  {
    if actions == [] then s == t
    else
      var next := Step(p, t, actions[0]);
      next.Some? && Leads(p, next.value, actions[1..], s)
  }

  // ------------------------------------------------------------ the invariant

  predicate Live(pc: Pc) {
    pc in {Guard, Calling, Waiting, Handling}
  }

  // The threads not yet joined.
  function Held(s: State): nat {
    (if s.server.Some? then 1 else 0) + Unjoined(s.workers)
  }

  function Unjoined(ws: seq<Pc>): nat {
    if ws == [] then 0 else (if ws[0] == Joined then 0 else 1) + Unjoined(ws[1..])
  }

  function CountLive(ws: seq<Pc>): nat {
    if ws == [] then 0 else (if Live(ws[0]) then 1 else 0) + CountLive(ws[1..])
  }

  // The threads that have not returned.
  function LiveThreads(s: State): nat {
    (if s.server.Some? && Live(s.server.value) then 1 else 0) + CountLive(s.workers)
  }

  predicate AllLive(ws: seq<Pc>) {
    forall i :: 0 <= i < |ws| ==> Live(ws[i])
  }

  predicate JoinedUpTo(ws: seq<Pc>, k: nat) {
    forall i :: 0 <= i < |ws| ==> (ws[i] == Joined <==> i < k)
  }

  predicate Inv(p: Setup, s: State) {
    && (forall i :: 0 <= i < |s.workers| ==> s.workers[i] !in {Calling, Handling})
    && s.spawned == s.joined + Held(s)
    && (s.server.Some? ==> s.server.value != Joined)
    && match s.control
       case Idle =>
         if s.running
         then s.server.Some? && Live(s.server.value) && |s.workers| == p.pool && AllLive(s.workers)
         else s.server.None? && s.workers == []
       case Spawning(k) =>
         s.running && s.server.None? && |s.workers| == k <= p.pool && AllLive(s.workers)
       case Closing => !s.running && s.server.Some? && |s.workers| == p.pool && JoinedUpTo(s.workers, 0)
       case JoiningServer =>
         !s.running && !s.open && s.server.Some? && |s.workers| == p.pool && JoinedUpTo(s.workers, 0)
       case JoiningWorkers(k) =>
         !s.running && !s.open && s.server.None? && k <= |s.workers| == p.pool && JoinedUpTo(s.workers, k)
  }

  lemma {:induction false} UnjoinedUpdate(ws: seq<Pc>, i: nat, pc: Pc)
    requires i < |ws|
    ensures Unjoined(ws[i := pc]) ==
      Unjoined(ws) - (if ws[i] == Joined then 0 else 1) + (if pc == Joined then 0 else 1)
  {
    if i == 0 {
      assert ws[i := pc][1..] == ws[1..];
    } else {
      assert ws[i := pc][1..] == ws[1..][i - 1 := pc];
      UnjoinedUpdate(ws[1..], i - 1, pc);
    }
  }

  lemma {:induction false} UnjoinedPush(ws: seq<Pc>, pc: Pc)
    requires pc != Joined
    ensures Unjoined(ws + [pc]) == Unjoined(ws) + 1
  {
    if ws == [] {
      assert ws + [pc] == [pc];
    } else {
      assert (ws + [pc])[1..] == ws[1..] + [pc];
      UnjoinedPush(ws[1..], pc);
    }
  }

  lemma {:induction false} AllJoined(ws: seq<Pc>)
    requires JoinedUpTo(ws, |ws|)
    ensures Unjoined(ws) == 0 && Unjoined([]) == 0
  {
    if ws != [] {
      assert forall i :: 0 <= i < |ws| - 1 ==> ws[1..][i] == ws[i + 1];
      AllJoined(ws[1..]);
    }
  }

  /** Every step, of whichever thread, keeps the invariant. */
  lemma StepKeeps(p: Setup, s: State, a: Action)
    requires Inv(p, s) && Step(p, s, a).Some?
    ensures Inv(p, Step(p, s, a).value)
  {
    hide Unjoined;
    match a
    case Spawn =>
      UnjoinedPush(s.workers, Guard);
    case Join =>
      if s.control.JoiningWorkers? {
        if s.control.k < |s.workers| {
          UnjoinedUpdate(s.workers, s.control.k, Joined);
        } else {
          AllJoined(s.workers);
        }
      }
    case WorkerStep(i) =>
      UnjoinedUpdate(s.workers, i, WorkerLoop(s.running, s.workers[i]).value);
    case _ =>
  }

  lemma {:induction false} RunKeeps(p: Setup, t: State, actions: seq<Action>, s: State)
    requires Inv(p, t) && Leads(p, t, actions, s)
    ensures Inv(p, s)
    decreases |actions|
  {
    hide Inv, Step;
    if actions != [] {
      StepKeeps(p, t, actions[0]);
      RunKeeps(p, Step(p, t, actions[0]).value, actions[1..], s);
    }
  }

  lemma {:induction false} CountsOfLive(ws: seq<Pc>)
    requires AllLive(ws)
    ensures CountLive(ws) == Unjoined(ws) == |ws|
  {
    if ws != [] {
      CountsOfLive(ws[1..]);
    }
  }

  predicate ThreadAction(a: Action) {
    a.WorkerStep? || a.ServerStep?
  }

  /** Over every interleaving and every sequence of calls: the threads spawned are those
      joined and those held; between calls pool + 1 threads run if the server is running
      and none is left otherwise; when none is left no thread can take a step and a further
      stop changes nothing; and start never overwrites a thread it has not joined, which
      would end the program. */
  lemma ThreadsAccounted(p: Setup, actions: seq<Action>, s: State)
    requires Leads(p, INITIAL, actions, s)
    ensures s.spawned == s.joined + Held(s)
    ensures s.control == Idle ==> LiveThreads(s) == Held(s) == if s.running then p.pool + 1 else 0
    ensures s.control == Idle && !s.running ==>
      Step(p, s, CallStop) == Some(s) && forall a :: ThreadAction(a) ==> Step(p, s, a) == None
    ensures s.control.Spawning? && s.control.k >= p.pool ==> s.server == None
    ensures s.control == Idle && !s.running ==> s.workers == []
  {
    hide Leads;
    StartsValid(p);
    RunKeeps(p, INITIAL, actions, s);
    if s.control == Idle {
      CountsOfLive(s.workers);
    }
  }

  /** start changes nothing while the server runs. */
  lemma StartTwice(p: Setup, s: State)
    requires s.control == Idle && s.running
    ensures Step(p, s, CallStart) == Some(s)
  {
  }

  lemma StartsValid(p: Setup)
    ensures Inv(p, INITIAL)
  {
  }

  /** Once stop has returned, nothing happens until the next start but that the socket may
      be opened: no request is handled and no thread moves, whatever is attempted. */
  lemma {:induction false} QuietAfterStop(p: Setup, t: State, actions: seq<Action>, s: State)
    requires Inv(p, t) && t.control == Idle && !t.running
    requires Leads(p, t, actions, s) && CallStart !in actions
    ensures s == t.(open := s.open)
    decreases |actions|
  {
    if actions != [] {
      assert actions[0] in actions;
      var next := Step(p, t, actions[0]).value;
      assert next == t.(open := next.open);
      QuietAfterStop(p, next, actions[1..], s);
    }
  }

  // ------------------------------------------------------------ requests

  function Requested(actions: seq<Action>): nat {
    if actions == [] then 0
    else (if actions[0] == ServerStep(Request) then 1 else 0) + Requested(actions[1..])
  }

  // The request that is being handled.
  function InHand(s: State): nat {
    if s.server == Some(Handling) then 1 else 0
  }

  /** Over every interleaving each request that arrives is handled once, or still being
      handled, and nothing else is: no empty or unparsable datagram, and no failed call. */
  lemma {:induction false} RequestsCounted(p: Setup, t: State, actions: seq<Action>, s: State)
    requires Inv(p, t) && Leads(p, t, actions, s)
    ensures s.handled + InHand(s) == t.handled + InHand(t) + Requested(actions)
    decreases |actions|
  {
    if actions != [] {
      StepKeeps(p, t, actions[0]);
      OneRequest(p, t, actions[0]);
      RequestsCounted(p, Step(p, t, actions[0]).value, actions[1..], s);
    }
  }

  lemma OneRequest(p: Setup, t: State, a: Action)
    requires Inv(p, t) && Step(p, t, a).Some?
    ensures
      var next := Step(p, t, a).value;
      next.handled + InHand(next) == t.handled + InHand(t) + if a == ServerStep(Request) then 1 else 0
  {
    hide Unjoined;
  }

  /** A server that waits on an open socket takes in whatever arrives, handles it if it is a
      request, and waits again. */
  lemma IdleServerServes(p: Setup, t: State, arrival: Arrival)
    requires IdleServer(p, t) && t.open && arrival != Nothing
    ensures exists actions, s ::
      && Leads(p, t, [ServerStep(arrival)] + actions, s) && Quiet(actions)
      && s == t.(handled := t.handled + if arrival == Request then 1 else 0)
  {
    hide Leads, Inv;
    var a := ServerStep(Nothing);
    var taken := Step(p, t, ServerStep(arrival)).value;
    var handled := if arrival == Request then Step(p, taken, a).value else taken;
    var actions, s := BlockRun(p, handled);
    if arrival == Request {
      Prepend(p, taken, a, actions, s);
      actions := [a] + actions;
    }
    Prepend(p, t, ServerStep(arrival), actions, s);
  }

  // ------------------------------------------------------------ the closed socket

  /** No socket is open and the server thread is not on one. */
  predicate Deaf(s: State) {
    !s.open && s.server !in {Some(Waiting), Some(Handling)}
  }

  /** Without a socket no request is handled, started again or not. */
  lemma {:induction false} DeafStays(p: Setup, t: State, actions: seq<Action>, s: State)
    requires Deaf(t) && Leads(p, t, actions, s) && Initialize !in actions
    ensures Deaf(s) && s.handled == t.handled
    decreases |actions|
  {
    if actions != [] {
      assert actions[0] in actions;
      DeafStays(p, Step(p, t, actions[0]).value, actions[1..], s);
    }
  }

  // ------------------------------------------------------------ stop comes to an end

  /** stop has been called and has not returned. */
  predicate Stopping(s: State) {
    !s.running && s.control != Idle
  }

  // The most steps a thread can still take once running_ is false.
  function Rank(pc: Pc): nat {
    match pc
    case Calling => 4
    case Waiting => 3
    case Handling => 2
    case Guard => 1
    case _ => 0
  }

  function Ranks(ws: seq<Pc>): nat {
    if ws == [] then 0 else Rank(ws[0]) + Ranks(ws[1..])
  }

  function CallsLeft(s: State): nat {
    match s.control
    case Closing => |s.workers| + 3
    case JoiningServer => |s.workers| + 2
    case JoiningWorkers(k) => if k <= |s.workers| then |s.workers| - k + 1 else 0
    case _ => 0
  }

  function StepsLeft(s: State): nat {
    CallsLeft(s) + Ranks(s.workers) + if s.server.Some? then Rank(s.server.value) else 0
  }

  // One more for a datagram that may still be taken in.
  function Requests(s: State): nat {
    s.handled + if s.server in {Some(Calling), Some(Waiting), Some(Handling)} then 1 else 0
  }

  lemma {:induction false} RanksUpdate(ws: seq<Pc>, i: nat, pc: Pc)
    requires i < |ws|
    ensures Ranks(ws[i := pc]) == Ranks(ws) - Rank(ws[i]) + Rank(pc)
  {
    if i == 0 {
      assert ws[i := pc][1..] == ws[1..];
    } else {
      assert ws[i := pc][1..] == ws[1..][i - 1 := pc];
      RanksUpdate(ws[1..], i - 1, pc);
    }
  }

  lemma EmptyRanks()
    ensures Ranks([]) == 0
  {
  }

  lemma StopStep(p: Setup, s: State, a: Action)
    requires Inv(p, s) && Stopping(s) && Step(p, s, a).Some?
    ensures
      var next := Step(p, s, a).value;
      && !next.running
      && StepsLeft(next) < StepsLeft(s)
      && Requests(next) <= Requests(s)
      && (next.control == Idle ==> Deaf(next))
  {
    hide Ranks, Unjoined;
    match a
    case Join =>
      if s.control.JoiningWorkers? && s.control.k < |s.workers| {
        RanksUpdate(s.workers, s.control.k, Joined);
      } else if s.control.JoiningWorkers? {
        EmptyRanks();
      }
    case WorkerStep(i) =>
      RanksUpdate(s.workers, i, WorkerLoop(s.running, s.workers[i]).value);
    case _ =>
  }

  /** Every run of steps taken while stop has not returned. */
  predicate LeadsStopping(p: Setup, t: State, actions: seq<Action>, s: State)
    decreases |actions|
  {
    if actions == [] then s == t
    else
      var next := Step(p, t, actions[0]);
      Stopping(t) && next.Some? && LeadsStopping(p, next.value, actions[1..], s)
  }

  /** Under any scheduling and any arrivals, a run during which stop has not returned has at
      most StepsLeft steps, and handles at most one request more; when stop does return,
      the socket is closed. */
  lemma {:induction false} StopEnds(p: Setup, t: State, actions: seq<Action>, s: State)
    requires Inv(p, t) && LeadsStopping(p, t, actions, s)
    ensures Inv(p, s) && |actions| + StepsLeft(s) <= StepsLeft(t)
    ensures s.handled <= t.handled + 1
    ensures Requests(s) <= Requests(t)
    ensures Stopping(t) ==> Stopping(s) || (s.control == Idle && !s.running && Deaf(s))
    decreases |actions|
  {
    hide Inv, Step, StepsLeft;
    if actions != [] {
      var next := Step(p, t, actions[0]).value;
      StepKeeps(p, t, actions[0]);
      StopStep(p, t, actions[0]);
      StopEnds(p, next, actions[1..], s);
    }
  }

  /** From the moment a stop returns, no request is handled until initialize opens a socket
      again, whatever else happens, further starts and stops included. */
  lemma NothingServedAfterStop(p: Setup, t: State, stopping: seq<Action>, u: State, actions: seq<Action>, s: State)
    requires Inv(p, t) && Stopping(t)
    requires LeadsStopping(p, t, stopping, u) && u.control == Idle
    requires Leads(p, u, actions, s) && Initialize !in actions
    ensures s.handled == u.handled
  {
    hide Inv, Leads, LeadsStopping;
    StopEnds(p, t, stopping, u);
    DeafStays(p, u, actions, s);
  }

  // ------------------------------------------------------------ whether stop returns

  /** Nothing can happen until a datagram arrives. */
  ghost predicate Stuck(p: Setup, s: State) {
    forall a :: !NeedsDatagram(a) ==> Step(p, s, a) == None
  }

  predicate Quiet(actions: seq<Action>) {
    forall i :: 0 <= i < |actions| ==> !NeedsDatagram(actions[i])
  }

  /** stop is stuck exactly while it joins a server thread that is blocked in recvfrom, on a
      platform where closing the socket did not wake it, and the workers have returned. */
  lemma StuckMeans(p: Setup, s: State)
    requires Inv(p, s) && Stopping(s)
    ensures Stuck(p, s) <==>
      && !p.wakes && s.control == JoiningServer && s.server == Some(Waiting)
      && forall i :: 0 <= i < |s.workers| ==> s.workers[i] == Returned
  {
    hide Unjoined;
    match s.control
    case Closing =>
      assert Step(p, s, CloseSocket).Some?;
    case JoiningServer =>
      assert Step(p, s, Join).Some? <==> s.server == Some(Returned);
      assert Step(p, s, ServerStep(Nothing)).Some? <==>
        s.server != Some(Returned) && (p.wakes || s.server != Some(Waiting));
      assert forall i: nat :: i < |s.workers| ==>
        (Step(p, s, WorkerStep(i)).Some? <==> s.workers[i] != Returned);
    case JoiningWorkers(k) =>
      if k == |s.workers| || s.workers[k] == Returned {
        assert Step(p, s, Join).Some?;
      } else {
        assert Step(p, s, WorkerStep(k)).Some?;
      }
  }

  /** The server thread is blocked, and only a datagram can free it. */
  predicate Hung(p: Setup, s: State) {
    !p.wakes && s.server == Some(Waiting)
  }

  /** The server thread is blocked or may still block. */
  predicate AtRisk(p: Setup, s: State) {
    !p.wakes && (s.server == Some(Waiting) || (s.server == Some(Calling) && s.open))
  }

  lemma {:induction false} HungStays(p: Setup, t: State, actions: seq<Action>, s: State)
    requires Inv(p, t) && Stopping(t) && Hung(p, t)
    requires Leads(p, t, actions, s) && Quiet(actions)
    ensures Stopping(s) && Hung(p, s)
    decreases |actions|
  {
    if actions != [] {
      StepKeeps(p, t, actions[0]);
      assert !NeedsDatagram(actions[0]);
      HungStays(p, Step(p, t, actions[0]).value, actions[1..], s);
    }
  }

  lemma {:induction false} SafeStays(p: Setup, t: State, actions: seq<Action>, s: State)
    requires Inv(p, t) && Stopping(t) && !AtRisk(p, t)
    requires LeadsStopping(p, t, actions, s)
    ensures Inv(p, s) && !AtRisk(p, s)
    decreases |actions|
  {
    if actions != [] {
      var next := Step(p, t, actions[0]).value;
      StepKeeps(p, t, actions[0]);
      assert !AtRisk(p, next) && (actions[1..] != [] ==> Stopping(next));
      if Stopping(next) {
        SafeStays(p, next, actions[1..], s);
      }
    }
  }

  lemma Prepend(p: Setup, t: State, a: Action, actions: seq<Action>, s: State)
    requires Step(p, t, a).Some?
    ensures Leads(p, Step(p, t, a).value, actions, s) ==> Leads(p, t, [a] + actions, s)
    ensures Stopping(t) && LeadsStopping(p, Step(p, t, a).value, actions, s) ==>
      LeadsStopping(p, t, [a] + actions, s)
    ensures !NeedsDatagram(a) && Quiet(actions) ==> Quiet([a] + actions)
  {
    assert ([a] + actions)[1..] == actions;
  }

  // A step that brings stop nearer to its end.
  lemma StopMoves(p: Setup, s: State) returns (a: Action)
    requires Inv(p, s) && Stopping(s) && !Hung(p, s)
    ensures !NeedsDatagram(a) && Step(p, s, a).Some?
    ensures !Hung(p, Step(p, s, a).value) && !Step(p, s, a).value.running
  {
    hide Unjoined;
    match s.control
    case Closing =>
      a := CloseSocket;
    case JoiningServer =>
      a := if s.server == Some(Returned) then Join else ServerStep(Nothing);
    case JoiningWorkers(k) =>
      a := if k == |s.workers| || s.workers[k] == Returned then Join else WorkerStep(k);
  }

  lemma {:induction false} StopRun(p: Setup, t: State) returns (actions: seq<Action>, s: State)
    requires Inv(p, t) && Stopping(t) && !Hung(p, t)
    ensures Quiet(actions) && Leads(p, t, actions, s) && s.control == Idle
    decreases StepsLeft(t)
  {
    hide Inv, Step, StepsLeft;
    var a := StopMoves(p, t);
    var next := Step(p, t, a).value;
    StepKeeps(p, t, a);
    StopStep(p, t, a);
    actions, s := [], next;
    if next.control != Idle {
      actions, s := StopRun(p, next);
    }
    Prepend(p, t, a, actions, s);
    actions := [a] + actions;
  }

  /** Unaided by a datagram stop can return if and only if closing a socket wakes its readers
      or the server thread is not blocked. */
  lemma StopCanReturn(p: Setup, t: State)
    requires Inv(p, t) && Stopping(t)
    ensures (exists actions, s :: Quiet(actions) && Leads(p, t, actions, s) && s.control == Idle) <==>
      p.wakes || t.server != Some(Waiting)
  {
    hide Inv, Leads;
    if Hung(p, t) {
      forall actions, s | Quiet(actions) && Leads(p, t, actions, s)
        ensures s.control != Idle
      {
        HungStays(p, t, actions, s);
      }
    } else {
      var actions, s := StopRun(p, t);
    }
  }

  // A step on the way to waiting for a datagram.
  lemma RiskMoves(p: Setup, s: State) returns (a: Action)
    requires Inv(p, s) && Stopping(s) && AtRisk(p, s) && !Stuck(p, s)
    ensures !NeedsDatagram(a) && Step(p, s, a).Some?
    ensures AtRisk(p, Step(p, s, a).value) && Stopping(Step(p, s, a).value)
  {
    hide Unjoined, Stuck;
    StuckMeans(p, s);
    if s.server == Some(Calling) {
      a := ServerStep(Nothing);
    } else if s.control == Closing {
      a := CloseSocket;
    } else {
      var i: nat :| i < |s.workers| && s.workers[i] != Returned;
      a := WorkerStep(i);
    }
  }

  lemma {:induction false} StuckRun(p: Setup, t: State) returns (actions: seq<Action>, s: State)
    requires Inv(p, t) && Stopping(t) && AtRisk(p, t)
    ensures Quiet(actions) && LeadsStopping(p, t, actions, s) && Stopping(s) && Stuck(p, s)
    decreases StepsLeft(t)
  {
    hide Inv, Step, StepsLeft, Stuck, AtRisk;
    actions, s := [], t;
    if !Stuck(p, t) {
      var a := RiskMoves(p, t);
      var next := Step(p, t, a).value;
      StepKeeps(p, t, a);
      StopStep(p, t, a);
      actions, s := StuckRun(p, next);
      Prepend(p, t, a, actions, s);
      actions := [a] + actions;
    }
  }

  /** stop cannot come to wait for a datagram, under any scheduling, if and only if closing a
      socket wakes its readers or the server thread neither is blocked nor has still an open
      socket to block on.  With StopEnds, stop then returns whatever the scheduling. */
  lemma StopMustReturn(p: Setup, t: State)
    requires Inv(p, t) && Stopping(t)
    ensures
      (forall actions, s :: Quiet(actions) && LeadsStopping(p, t, actions, s) && Stopping(s) ==> !Stuck(p, s)) <==>
      p.wakes || (t.server != Some(Waiting) && !(t.server == Some(Calling) && t.open))
  {
    hide Inv, Stuck, LeadsStopping;
    if AtRisk(p, t) {
      var actions, s := StuckRun(p, t);
    } else {
      forall actions, s | Quiet(actions) && LeadsStopping(p, t, actions, s) && Stopping(s)
        ensures !Stuck(p, s)
      {
        SafeStays(p, t, actions, s);
        StuckMeans(p, s);
      }
    }
  }

  /** A single datagram, of whatever contents, frees a blocked stop for good. */
  lemma OneDatagramFrees(p: Setup, t: State, arrival: Arrival, actions: seq<Action>, s: State)
    requires Inv(p, t) && Stopping(t) && Hung(p, t) && arrival != Nothing
    ensures
      var next := Step(p, t, ServerStep(arrival));
      && next.Some? && Stopping(next.value)
      && (LeadsStopping(p, next.value, actions, s) && Stopping(s) ==> !Stuck(p, s))
  {
    hide Stuck, LeadsStopping;
    var next := Step(p, t, ServerStep(arrival)).value;
    StepKeeps(p, t, ServerStep(arrival));
    if LeadsStopping(p, next, actions, s) && Stopping(s) {
      SafeStays(p, next, actions, s);
      StuckMeans(p, s);
    }
  }

  /** A started server that waits for a datagram, no call being under way. */
  predicate IdleServer(p: Setup, s: State) {
    Inv(p, s) && s.control == Idle && s.running && s.server == Some(Waiting)
  }

  /** Stopping an idle server, blocked in recvfrom with nothing arriving, does not return
      where closing a socket does not wake its readers. */
  lemma IdleServerHangs(p: Setup, t: State, actions: seq<Action>, s: State)
    requires IdleServer(p, t) && !p.wakes && Quiet(actions)
    ensures
      var stop := Step(p, t, CallStop);
      stop.Some? && Stopping(stop.value) && (Leads(p, stop.value, actions, s) ==> s.control != Idle)
  {
    hide Leads;
    StepKeeps(p, t, CallStop);
    if Leads(p, Step(p, t, CallStop).value, actions, s) {
      HungStays(p, Step(p, t, CallStop).value, actions, s);
    }
  }

  // start called, from its first worker on, up to a server blocked in recvfrom.
  lemma {:induction false} SpawnRun(p: Setup, t: State) returns (actions: seq<Action>, s: State)
    requires Inv(p, t) && t.control.Spawning? && t.open
    ensures Quiet(actions) && Leads(p, t, actions, s)
    ensures s.control == Idle && s.running && s.open && s.server == Some(Waiting)
    decreases p.pool - t.control.k
  {
    hide Unjoined, Leads;
    var next := Step(p, t, Spawn).value;
    StepKeeps(p, t, Spawn);
    if t.control.k < p.pool {
      actions, s := SpawnRun(p, next);
    } else {
      actions, s := BlockRun(p, next);
    }
    Prepend(p, t, Spawn, actions, s);
    actions := [Spawn] + actions;
  }

  lemma BlockRun(p: Setup, t: State) returns (actions: seq<Action>, s: State)
    requires t.server == Some(Guard) && t.running && t.open
    ensures Quiet(actions) && Leads(p, t, actions, s) && s == t.(server := Some(Waiting))
  {
    var a := ServerStep(Nothing);
    var calling := Step(p, t, a).value;
    s := Step(p, calling, a).value;
    Prepend(p, calling, a, [], s);
    Prepend(p, t, a, [a], s);
    actions := [a] + [a];
  }

  /** Such a server is reached, whatever the number of workers: initialize it, start it and
      send it nothing. */
  lemma IdleServerReached(p: Setup)
    ensures exists actions, s :: Quiet(actions) && Leads(p, INITIAL, actions, s) && IdleServer(p, s) && s.open
  {
    hide Unjoined, Leads;
    StartsValid(p);
    var ready := Step(p, INITIAL, Initialize).value;
    StepKeeps(p, INITIAL, Initialize);
    var started := Step(p, ready, CallStart).value;
    StepKeeps(p, ready, CallStart);
    var actions, s := SpawnRun(p, started);
    RunKeeps(p, started, actions, s);
    Prepend(p, ready, CallStart, actions, s);
    Prepend(p, INITIAL, Initialize, [CallStart] + actions, s);
    assert Leads(p, INITIAL, [Initialize] + ([CallStart] + actions), s);
  }
}
