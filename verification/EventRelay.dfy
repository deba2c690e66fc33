/** Any number of producers and one relay around an event queue, as interleaved
    steps: no wakeup is lost, and what the relay hands on is what the queue keeps
    its promises about. */
module EventRelay {
  import opened Bytes
  import opened EventQueue

  /** Where the relay is: about to look into the queue, waiting for a wake token or
      the end, holding an event it has popped, or gone. */
  datatype Relay = Looking | Waiting | Handing(e: Event) | Stopped

  /** owing are the producers that have added an event and released the lock but
      have not sent to the wake channel yet; ops is the history of the queue. */
  datatype State = State(
    pending: seq<Event>, wake: bool, owing: set<nat>, relay: Relay, delivered: seq<Event>, ops: seq<Op>)

  datatype Action =
    | Enqueue(producer: nat, e: Event) // pushLocked, under the lock
    | Signal(producer: nat)            // the send to the wake channel
    | Look                             // Pop
    | Awake                            // a wake token is received
    | Hand                             // the event is received by the client
    | Quit                             // eventStop is closed

  const INITIAL: State := State([], false, {}, Looking, [], [])

  /** An action that cannot happen now changes nothing. */
  function Next(s: State, maxPending: int, a: Action): State {
    match a
    case Enqueue(p, e) =>
      if p in s.owing then s else
        var (pending, added) := Pushed(s.pending, maxPending, e);
        s.(pending := pending, owing := if added then s.owing + {p} else s.owing, ops := s.ops + [Push(e)])
    case Signal(p) =>
      if p in s.owing then s.(wake := true, owing := s.owing - {p}) else s
    case Look =>
      if s.relay != Looking then s
      else if s.pending == [] then s.(relay := Waiting, ops := s.ops + [Pop])
      else s.(relay := Handing(s.pending[0]), pending := s.pending[1..], ops := s.ops + [Pop])
    case Awake =>
      if s.relay == Waiting && s.wake then s.(wake := false, relay := Looking) else s
    case Hand =>
      if s.relay.Handing? then s.(delivered := s.delivered + [s.relay.e], relay := Looking) else s
    case Quit =>
      if s.relay == Waiting || s.relay.Handing? then s.(relay := Stopped) else s
  }

  function Behave(actions: seq<Action>, maxPending: int): State {
    if actions == [] then INITIAL
    else Next(Behave(actions[..|actions| - 1], maxPending), maxPending, actions[|actions| - 1])
  }

  /** The events that have left the queue for the relay. */
  function Relayed(s: State): seq<Event> {
    s.delivered + if s.relay.Handing? then [s.relay.e] else []
  }

  /** A relay that waits while events do has a token to wake up to, or a producer
      that is about to send one. */
  ghost predicate WillWake(s: State) {
    s.relay == Waiting && s.pending != [] ==> s.wake || s.owing != {}
  }

  /** The interleaving is a run of the queue, as seen through its lock. */
  ghost predicate IsQueueRun(s: State, maxPending: int) {
    && Exec(s.ops, maxPending).pending == s.pending
    && (s.relay != Stopped ==> Exec(s.ops, maxPending).popped == Relayed(s))
    && (s.relay == Stopped ==> s.delivered <= Exec(s.ops, maxPending).popped)
  }

  lemma ExecSnoc(ops: seq<Op>, maxPending: int, op: Op)
    ensures Exec(ops + [op], maxPending) == Step(Exec(ops, maxPending), maxPending, op)
  {
    assert (ops + [op])[..|ops|] == ops;
  }

  lemma WakeKept(s: State, maxPending: int, a: Action)
    requires WillWake(s)
    ensures WillWake(Next(s, maxPending, a))
  {
    if a.Enqueue? && a.producer !in s.owing && Pushed(s.pending, maxPending, a.e).1 {
      assert a.producer in Next(s, maxPending, a).owing;
    }
  }

  lemma RunKept(s: State, maxPending: int, a: Action)
    requires IsQueueRun(s, maxPending)
    ensures IsQueueRun(Next(s, maxPending, a), maxPending)
  {
    hide Pushed;
    match a
    case Enqueue(p, e) => ExecSnoc(s.ops, maxPending, Push(e));
    case Look => ExecSnoc(s.ops, maxPending, Pop);
    case Signal(_) =>
    case Awake =>
    case Hand =>
    case Quit =>
  }

  /** No lost wakeup, however producers and relay interleave. */
  lemma {:induction false} NoLostWakeup(actions: seq<Action>, maxPending: int)
    ensures WillWake(Behave(actions, maxPending))
    ensures IsQueueRun(Behave(actions, maxPending), maxPending)
  {
    if actions == [] {
    } else {
      NoLostWakeup(actions[..|actions| - 1], maxPending);
      WakeKept(Behave(actions[..|actions| - 1], maxPending), maxPending, actions[|actions| - 1]);
      RunKept(Behave(actions[..|actions| - 1], maxPending), maxPending, actions[|actions| - 1]);
    }
  }

  /** What reached the client, what is on its way, and what waits, together lose no
      important event and keep each class in order and up to date. */
  lemma RelayedInOrder(actions: seq<Action>, maxPending: int, c: Class)
    ensures var s := Behave(actions, maxPending);
      s.relay != Stopped ==>
        var pushed := Exec(s.ops, maxPending).pushed;
        && Filter(Relayed(s), Important) + Filter(s.pending, Important) == Filter(pushed, Important)
        && FreshEvents(Filter(Relayed(s), OfClass(c)), Filter(s.pending, OfClass(c)), Filter(pushed, OfClass(c)))
  {
    NoLostWakeup(actions, maxPending);
    Conservation(Behave(actions, maxPending).ops, maxPending);
    Freshness(Behave(actions, maxPending).ops, maxPending, c);
  }

  // ---- the relay drains the queue ------------------------------------------

  /** The one step the relay takes by itself. */
  function RelayTurn(s: State): Action {
    match s.relay
    case Looking => Look
    case Waiting => Awake
    case Handing(_) => Hand
    case Stopped => Quit
  }

  function RelayTurns(s: State, maxPending: int, n: nat): State
    decreases n
  {
    if n == 0 then s else RelayTurns(Next(s, maxPending, RelayTurn(s)), maxPending, n - 1)
  }

  function TurnsLeft(s: State): nat {
    2 * |s.pending| + (if s.wake then 2 else 0) + match s.relay
      case Looking => 1
      case Waiting => 0
      case Handing(_) => 2
      case Stopped => 0
  }

  /** Once no producer is mid-push, the relay left to itself hands on everything
      that waits: it never sleeps on a queue that is not empty. */
  lemma {:induction false} RelayDrains(s: State, maxPending: int)
    requires WillWake(s) && s.owing == {} && s.relay != Stopped
    ensures var t := RelayTurns(s, maxPending, TurnsLeft(s));
      t.pending == [] && t.relay == Waiting && t.delivered == Relayed(s) + s.pending
    decreases TurnsLeft(s)
  {
    var t := Next(s, maxPending, RelayTurn(s));
    if TurnsLeft(s) > 0 {
      assert TurnsLeft(t) == TurnsLeft(s) - 1;
      RelayDrains(t, maxPending);
      assert Relayed(t) + t.pending == Relayed(s) + s.pending;
    } else {
      assert Relayed(s) + s.pending == s.delivered;
    }
  }

  lemma BehaveSnoc(actions: seq<Action>, maxPending: int, a: Action)
    ensures Behave(actions + [a], maxPending) == Next(Behave(actions, maxPending), maxPending, a)
  {
    hide Next;
    assert (actions + [a])[..|actions|] == actions;
  }

  /** Once a producer's push is over, the event is in the queue's history and there is a
      token for the relay to wake up to, unless the event was refused, which changes
      nothing else. */
  lemma PushSignals(actions: seq<Action>, maxPending: int, p: nat, e: Event)
    requires p !in Behave(actions, maxPending).owing
    ensures var s, t := Behave(actions, maxPending), Behave(actions + [Enqueue(p, e)] + [Signal(p)], maxPending);
      && t.ops == s.ops + [Push(e)] && t.owing == s.owing && t.relay == s.relay && t.delivered == s.delivered
      && if Refused(s.pending, maxPending, e) then t.pending == s.pending && t.wake == s.wake else t.wake
  {
    NoLostWakeup(actions, maxPending);
    var s := Behave(actions, maxPending);
    hide Behave, Pushed, Refused, Exec;
    BehaveSnoc(actions, maxPending, Enqueue(p, e));
    BehaveSnoc(actions + [Enqueue(p, e)], maxPending, Signal(p));
    PushTakesIn(s.ops, maxPending, e);
    ExecPush(s.ops, maxPending, e);
  }

  lemma ExecPush(ops: seq<Op>, maxPending: int, e: Event)
    ensures Exec(ops + [Push(e)], maxPending).pending == Pushed(Exec(ops, maxPending).pending, maxPending, e).0
  {
    ExecSnoc(ops, maxPending, Push(e));
  }

  /** The producers in ps send their tokens, one after the other. */
  function Signalled(s: State, maxPending: int, ps: seq<nat>): State
    decreases |ps|
  {
    if ps == [] then s else Signalled(Next(s, maxPending, Signal(ps[0])), maxPending, ps[1..])
  }

  lemma {:induction false} SignalsSettle(s: State, maxPending: int, ps: seq<nat>)
    requires forall p :: p in s.owing ==> p in ps
    ensures var t := Signalled(s, maxPending, ps);
      && t.owing == {} && t.wake == (s.wake || s.owing != {})
      && t.pending == s.pending && t.relay == s.relay && t.delivered == s.delivered
    decreases |ps|
  {
    if ps == [] {
      assert s.owing == {};
    } else {
      SignalsSettle(Next(s, maxPending, Signal(ps[0])), maxPending, ps[1..]);
    }
  }

  /** In every reachable state: once the producers that have added an event have sent their
      tokens, the relay by itself hands on all that waits, in order. */
  lemma EverythingHandedOn(actions: seq<Action>, maxPending: int, ps: seq<nat>)
    requires Behave(actions, maxPending).relay != Stopped
    requires forall p :: p in Behave(actions, maxPending).owing ==> p in ps
    ensures var s := Behave(actions, maxPending);
      var t := Signalled(s, maxPending, ps);
      var u := RelayTurns(t, maxPending, TurnsLeft(t));
      u.pending == [] && u.relay == Waiting && u.delivered == Relayed(s) + s.pending
  {
    hide Behave, Signalled, RelayTurns, TurnsLeft, IsQueueRun;
    NoLostWakeup(actions, maxPending);
    SignalsSettle(Behave(actions, maxPending), maxPending, ps);
    RelayDrains(Signalled(Behave(actions, maxPending), maxPending, ps), maxPending);
  }
}
