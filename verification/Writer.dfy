/** The writing side of a connection: any number of goroutines that send, flush,
    close and fail, and one write loop, as interleaved atomic steps. */
module Writer {
  import opened Bytes

  const WRITE_QUEUE: int := 256

  /** One element of the write queue: a frame, or a flush marker. */
  datatype Item = Frame(data: seq<byte>) | Marker(id: nat)

  /** Where a goroutine is inside a method of the connection. */
  datatype Pc =
    | Idle
    | Sending(frame: seq<byte>) // Send has seen an open connection
    | Queueing(id: nat)         // Flush has seen one, its marker is not queued yet
    | Awaiting(id: nat)         // Flush waits for its marker
    | Failing(error: string)    // fail has not taken the lock yet
    | Closing                   // Close has not taken the lock yet
    | Shutting                  // Close has set the flag, the closing channel is open

  /** Where the write loop is. */
  datatype Loop = Selecting | Writing(frame: seq<byte>) | Stopping(pc: Pc) | Gone

  datatype State = State(
    closed: bool, err: Option<string>, // under the mutex
    closing: bool,                     // the closing channel is closed
    queue: seq<Item>,
    done: set<nat>,                    // the markers whose channel is closed
    loop: Loop,
    pcs: map<nat, Pc>,                 // absent means Idle
    wire: seq<byte>,                   // the bytes written to the stream
    // history
    accepted: seq<Item>,               // everything ever queued
    written: seq<Item>,                // the items the loop has finished with
    torn: Option<(seq<byte>, nat)>,    // the frame whose write failed, and how much of it went out
    markers: nat,                      // the number of flush markers made
    flushed: set<nat>,                 // the markers whose Flush returned nil
    panicked: bool)                    // a channel was closed twice

  const INITIAL: State :=
    State(false, None, false, [], {}, Selecting, map[], [], [], [], None, 0, {}, false)

  function PcOf(s: State, t: nat): Pc {
    if t in s.pcs then s.pcs[t] else Idle
  }

  datatype Action =
    | Send(t: nat, frame: seq<byte>)   // Send reads the flag
    | Enqueue(t: nat)                  // its send to the queue, or the drop if that is full
    | Flush(t: nat)                    // Flush reads the flag
    | Mark(t: nat)                     // its send to the queue
    | GiveUp(t: nat)                   // it times out or sees that the loop is gone
    | Flushed(t: nat)                  // it sees its done channel closed and returns nil
    | Fail(t: nat, e: string)          // somebody calls fail
    | Close(t: nat)                    // somebody calls Close
    | Record(t: nat)                   // fail's critical section
    | SetClosed(t: nat)                // Close's critical section
    | Shut(t: nat)                     // close(closing), and the stream's own Close
    | Receive                          // the loop takes an item off the queue
    | Write                            // its write goes through
    | Tear(n: nat, e: string)          // its write fails after n bytes
    | LoopRecord | LoopSetClosed | LoopShut // its own call of fail
    | Leave                            // it sees the closing channel closed

  function Goto(s: State, t: nat, pc: Pc): State {
    s.(pcs := s.pcs[t := pc])
  }

  function Recorded(s: State, e: string): State {
    if s.err == None && !s.closed then s.(err := Some(e)) else s
  }

  function ShutDown(s: State): State {
    s.(closing := true, panicked := s.panicked || s.closing)
  }

  /** An action that cannot happen now changes nothing. */
  function Next(s: State, a: Action): State {
    match a
    case Send(t, frame) =>
      if PcOf(s, t) != Idle || s.closed then s else Goto(s, t, Sending(frame))
    case Enqueue(t) =>
      if !PcOf(s, t).Sending? then s
      else if |s.queue| >= WRITE_QUEUE then Goto(s, t, Idle)
      else
        var item := Frame(PcOf(s, t).frame);
        Goto(s, t, Idle).(queue := s.queue + [item], accepted := s.accepted + [item])
    case Flush(t) =>
      if PcOf(s, t) != Idle || s.closed then s
      else Goto(s, t, Queueing(s.markers)).(markers := s.markers + 1)
    case Mark(t) =>
      if !PcOf(s, t).Queueing? || |s.queue| >= WRITE_QUEUE then s
      else
        var id := PcOf(s, t).id;
        Goto(s, t, Awaiting(id)).(queue := s.queue + [Marker(id)], accepted := s.accepted + [Marker(id)])
    case GiveUp(t) =>
      if PcOf(s, t).Queueing? || PcOf(s, t).Awaiting? then Goto(s, t, Idle) else s
    case Flushed(t) =>
      if PcOf(s, t).Awaiting? && PcOf(s, t).id in s.done
      then Goto(s, t, Idle).(flushed := s.flushed + {PcOf(s, t).id}) else s
    case Fail(t, e) => if PcOf(s, t) == Idle then Goto(s, t, Failing(e)) else s
    case Close(t) => if PcOf(s, t) == Idle then Goto(s, t, Closing) else s
    case Record(t) => if PcOf(s, t).Failing? then Goto(Recorded(s, PcOf(s, t).error), t, Closing) else s
    case SetClosed(t) =>
      if PcOf(s, t) != Closing then s
      else if s.closed then Goto(s, t, Idle)
      else Goto(s, t, Shutting).(closed := true)
    case Shut(t) => if PcOf(s, t) == Shutting then Goto(ShutDown(s), t, Idle) else s
    case Receive =>
      if s.loop != Selecting || s.queue == [] then s
      else if s.queue[0].Frame? then s.(queue := s.queue[1..], loop := Writing(s.queue[0].data))
      else
        var id := s.queue[0].id;
        s.(queue := s.queue[1..], written := s.written + [s.queue[0]],
           done := s.done + {id}, panicked := s.panicked || id in s.done)
    case Write =>
      if s.loop.Writing?
      then s.(wire := s.wire + s.loop.frame, written := s.written + [Frame(s.loop.frame)], loop := Selecting)
      else s
    case Tear(n, e) =>
      if s.loop.Writing? && n < |s.loop.frame|
      then s.(wire := s.wire + s.loop.frame[..n], torn := Some((s.loop.frame, n)), loop := Stopping(Failing(e)))
      else s
    case LoopRecord =>
      if s.loop.Stopping? && s.loop.pc.Failing?
      then Recorded(s, s.loop.pc.error).(loop := Stopping(Closing)) else s
    case LoopSetClosed =>
      if s.loop != Stopping(Closing) then s
      else if s.closed then s.(loop := Gone)
      else s.(closed := true, loop := Stopping(Shutting))
    case LoopShut => if s.loop == Stopping(Shutting) then ShutDown(s).(loop := Gone) else s
    case Leave => if s.loop == Selecting && s.closing then s.(loop := Gone) else s
  }

  function Behave(actions: seq<Action>): State {
    if actions == [] then INITIAL else Next(Behave(actions[..|actions| - 1]), actions[|actions| - 1])
  }

  // ---- bytes on the wire ---------------------------------------------------

  /** The bytes of the frames among the items. */
  function Data(items: seq<Item>): seq<byte> {
    if items == [] then []
    else Data(items[..|items| - 1]) + if items[|items| - 1].Frame? then items[|items| - 1].data else []
  }

  /** The frame the loop is busy with, or gave up on. */
  function Current(s: State): seq<Item> {
    if s.loop.Writing? then [Frame(s.loop.frame)]
    else if s.torn.Some? then [Frame(s.torn.value.0)]
    else []
  }

  /** What went out of the frame whose write failed. */
  function Fragment(s: State): seq<byte> {
    if s.torn.Some? && s.torn.value.1 <= |s.torn.value.0| then s.torn.value.0[..s.torn.value.1] else []
  }

  /** Everything accepted has been dealt with, is being dealt with, or waits, in the
      order of acceptance; and the stream holds just the frames dealt with, whole,
      and a beginning of the one whose write failed. */
  ghost predicate InOrder(s: State) {
    && s.accepted == s.written + Current(s) + s.queue
    && s.wire == Data(s.written) + Fragment(s)
    && |s.queue| <= WRITE_QUEUE
    && (s.torn.Some? ==> s.torn.value.1 < |s.torn.value.0| && (s.loop.Stopping? || s.loop == Gone))
    && (s.loop.Stopping? ==> s.torn.Some?)
  }

  lemma DataSnoc(items: seq<Item>, x: Item)
    ensures Data(items + [x]) == Data(items) + if x.Frame? then x.data else []
  {
    assert (items + [x])[..|items|] == items;
  }

  lemma InOrderQueue(s: State, a: Action)
    requires InOrder(s) && (a.Enqueue? || a.Mark?)
    ensures InOrder(Next(s, a))
  {
    hide Data;
    var s' := Next(s, a);
    if s'.queue != s.queue {
      var x := s'.queue[|s.queue|];
      assert s'.queue == s.queue + [x] && s'.accepted == s.accepted + [x];
      assert s'.accepted == s.written + Current(s) + s'.queue;
    }
  }

  lemma InOrderReceive(s: State)
    requires InOrder(s)
    ensures InOrder(Next(s, Receive))
  {
    hide Data;
    var s' := Next(s, Receive);
    if s.loop == Selecting && s.queue != [] {
      assert s.queue == [s.queue[0]] + s.queue[1..];
      DataSnoc(s.written, s.queue[0]);
      assert Current(s) == [] && Fragment(s) == [] && Fragment(s') == [];
      assert s'.accepted == s'.written + Current(s') + s'.queue;
    }
  }

  lemma InOrderWrite(s: State, a: Action)
    requires InOrder(s) && (a == Write || a.Tear?)
    ensures InOrder(Next(s, a))
  {
    hide Data;
    var s' := Next(s, a);
    if s.loop.Writing? {
      DataSnoc(s.written, Frame(s.loop.frame));
      assert Fragment(s) == [] && Data(s.written) + [] == Data(s.written);
      assert s'.accepted == s'.written + Current(s') + s'.queue;
    }
  }

  lemma InOrderStep(s: State, a: Action)
    requires InOrder(s)
    ensures InOrder(Next(s, a))
  {
    if a.Enqueue? || a.Mark? {
      InOrderQueue(s, a);
    } else if a == Receive {
      InOrderReceive(s);
    } else if a == Write || a.Tear? {
      InOrderWrite(s, a);
    } else {
      hide Next, Data;
      OtherSteps(s, a);
    }
  }

  /** Only five actions touch the frames. */
  lemma OtherSteps(s: State, a: Action)
    ensures a.Enqueue? || a.Mark? || a.Receive? || a.Write? || a.Tear? ||
      var s' := Next(s, a);
      && s'.accepted == s.accepted && s'.written == s.written && s'.queue == s.queue
      && s'.wire == s.wire && s'.torn == s.torn && s'.done == s.done
      && (s'.loop == s.loop || (s.loop == Selecting && s'.loop == Gone) || (s.loop.Stopping? && (s'.loop == Gone || s'.loop.Stopping?)))
  {
  }

  // ---- flush ---------------------------------------------------------------

  /** No two flush markers are the same. */
  ghost predicate UniqueMarkers(s: State) {
    && (forall i, j :: 0 <= i < j < |s.accepted| && s.accepted[i].Marker? ==> s.accepted[i] != s.accepted[j])
    && (forall i :: 0 <= i < |s.accepted| && s.accepted[i].Marker? ==> s.accepted[i].id < s.markers)
    && (forall t :: PcOf(s, t).Queueing? ==> PcOf(s, t).id < s.markers && Marker(PcOf(s, t).id) !in s.accepted)
    && (forall t, u :: t != u && PcOf(s, t).Queueing? && PcOf(s, u).Queueing? ==> PcOf(s, t).id != PcOf(s, u).id)
  }

  lemma NewPcs(s: State, a: Action, t: nat)
    ensures PcOf(Next(s, a), t).Queueing? ==> PcOf(s, t) == PcOf(Next(s, a), t) || (a == Flush(t) && PcOf(Next(s, a), t) == Queueing(s.markers))
    ensures PcOf(Next(s, a), t) == Shutting ==> PcOf(s, t) == Shutting || (a == SetClosed(t) && !s.closed)
    ensures Next(s, a).markers == s.markers + if Next(s, a).markers > s.markers then 1 else 0
    ensures a.Flush? && PcOf(Next(s, a), a.t) == Queueing(s.markers) && PcOf(s, a.t) != Queueing(s.markers) ==> Next(s, a).markers == s.markers + 1
  {
  }

  lemma NewAccepted(s: State, a: Action)
    ensures var s' := Next(s, a);
      || s'.accepted == s.accepted
      || (a.Enqueue? && PcOf(s, a.t).Sending? && s'.accepted == s.accepted + [Frame(PcOf(s, a.t).frame)])
      || (a.Mark? && PcOf(s, a.t).Queueing? && !PcOf(s', a.t).Queueing? && s'.accepted == s.accepted + [Marker(PcOf(s, a.t).id)])
  {
  }

  lemma UniqueMarkersStep(s: State, a: Action)
    requires UniqueMarkers(s)
    ensures UniqueMarkers(Next(s, a))
  {
    var s' := Next(s, a);
    hide Next, PcOf;
    NewAccepted(s, a);
    forall t: nat ensures PcOf(s', t).Queueing? ==> PcOf(s, t) == PcOf(s', t) || (a == Flush(t) && PcOf(s', t) == Queueing(s.markers) && s'.markers == s.markers + 1)
                  ensures s.markers <= s'.markers
    {
      NewPcs(s, a, t);
    }
    NewPcs(s, a, 0);
    assert Marker(s.markers) !in s.accepted;
  }

  /** A marker's channel is closed once the loop has come to it, and Flush returns
      nil only after that. */
  ghost predicate DoneIsWritten(s: State) {
    && (forall id :: id in s.done ==> Marker(id) in s.written)
    && s.flushed <= s.done
  }

  lemma DoneIsWrittenStep(s: State, a: Action)
    requires DoneIsWritten(s)
    ensures DoneIsWritten(Next(s, a))
  {
    var s' := Next(s, a);
    forall x | x in s.written ensures x in s'.written {
      if a.Receive? || a.Write? {
      } else {
        OtherSteps(s, a);
      }
    }
  }

  // ---- errors and shutdown -------------------------------------------------

  /** No channel is closed twice: at most one call of Close gets past the flag. */
  ghost predicate ClosesOnce(s: State) {
    && !s.panicked
    && (s.closing ==> s.closed)
    && (forall t :: PcOf(s, t) == Shutting ==> s.closed && !s.closing && s.loop != Stopping(Shutting))
    && (s.loop == Stopping(Shutting) ==> s.closed && !s.closing)
    && (forall t, u :: PcOf(s, t) == Shutting && PcOf(s, u) == Shutting ==> t == u)
  }

  lemma ClosesOnceStep(s: State, a: Action)
    requires ClosesOnce(s) && InOrder(s) && UniqueMarkers(s) && DoneIsWritten(s)
    ensures ClosesOnce(Next(s, a))
  {
    hide Data, Fragment;
    var s' := Next(s, a);
    forall t: nat ensures PcOf(s', t) == Shutting ==> PcOf(s, t) == Shutting || (a == SetClosed(t) && !s.closed) {
      NewPcs(s, a, t);
    }
    if s.loop == Selecting && s.queue != [] && s.queue[0].Marker? {
      MarkerOnce(s);
    }
  }

  lemma MarkerOnce(s: State)
    requires InOrder(s) && UniqueMarkers(s) && s.queue != [] && s.queue[0].Marker?
    ensures s.queue[0] !in s.written
  {
    hide Data, Fragment;
    forall k | 0 <= k < |s.written| ensures s.written[k] != s.queue[0] {
      var j := |s.written| + |Current(s)|;
      assert s.accepted[k] == s.written[k] && s.accepted[j] == s.queue[0];
    }
  }

  /** The first recorded error is never replaced, and none is recorded once the
      connection has been closed. */
  lemma ErrorStays(s: State, a: Action)
    requires s.err.Some? || s.closed
    ensures Next(s, a).err == s.err
    ensures s.closed ==> Next(s, a).closed
  {
  }

  lemma {:induction false} ErrorStaysForever(before: seq<Action>, after: seq<Action>)
    requires Behave(before).err.Some? || Behave(before).closed
    ensures Behave(before + after).err == Behave(before).err
    ensures Behave(before).closed ==> Behave(before + after).closed
  {
    hide Next;
    if after == [] {
      assert before + after == before;
    } else {
      var all, front := before + after, after[..|after| - 1];
      assert all[..|all| - 1] == before + front && all[|all| - 1] == after[|after| - 1];
      ErrorStaysForever(before, front);
      ErrorStays(Behave(before + front), after[|after| - 1]);
    }
  }

  // ---- every run -----------------------------------------------------------

  ghost predicate Invariant(s: State) {
    InOrder(s) && UniqueMarkers(s) && DoneIsWritten(s) && ClosesOnce(s)
  }

  lemma {:induction false} EveryRun(actions: seq<Action>)
    ensures Invariant(Behave(actions))
  {
    if actions == [] {
    } else {
      hide InOrder, UniqueMarkers, DoneIsWritten, ClosesOnce, Next;
      var s, a := Behave(actions[..|actions| - 1]), actions[|actions| - 1];
      EveryRun(actions[..|actions| - 1]);
      InOrderStep(s, a);
      UniqueMarkersStep(s, a);
      DoneIsWrittenStep(s, a);
      ClosesOnceStep(s, a);
    }
  }

  lemma {:induction false} DataPrefix(items: seq<Item>, k: nat)
    requires k <= |items|
    ensures Data(items[..k]) <= Data(items)
  {
    if k < |items| {
      DataPrefix(items[..|items| - 1], k);
      assert items[..|items| - 1][..k] == items[..k];
    } else {
      assert items[..k] == items;
    }
  }

  /** When Flush has returned nil, its marker was queued once, and every frame that
      was queued before it is on the wire, whole and in order. */
  lemma FlushIsHonest(actions: seq<Action>, id: nat)
    requires id in Behave(actions).flushed
    ensures var s := Behave(actions);
      && Marker(id) in s.accepted
      && forall k :: 0 <= k < |s.accepted| && s.accepted[k] == Marker(id) ==>
           k < |s.written| && s.accepted[..k] == s.written[..k] && Data(s.accepted[..k]) <= s.wire
  {
    hide Data, Next, Behave;
    var s := Behave(actions);
    EveryRun(actions);
    var i :| 0 <= i < |s.written| && s.written[i] == Marker(id);
    assert s.accepted[i] == Marker(id);
    forall k | 0 <= k < |s.accepted| && s.accepted[k] == Marker(id)
      ensures k < |s.written| && s.accepted[..k] == s.written[..k] && Data(s.accepted[..k]) <= s.wire
    {
      assert k == i;
      assert s.accepted[..k] == s.written[..k];
      DataPrefix(s.written, k);
    }
  }

  // ---- what is recorded ------------------------------------------------------

  /** A critical section that matters for the error: of fail, or of Close when it finds
      the connection open. */
  datatype Section = Failure(error: string) | Closure

  /** The critical section an action runs, if it runs one. */
  function SectionOf(s: State, a: Action): Option<Section> {
    if a.Record? && PcOf(s, a.t).Failing? then Some(Failure(PcOf(s, a.t).error))
    else if a.LoopRecord? && s.loop.Stopping? && s.loop.pc.Failing? then Some(Failure(s.loop.pc.error))
    else if a.SetClosed? && PcOf(s, a.t) == Closing then Some(Closure)
    else if a.LoopSetClosed? && s.loop == Stopping(Closing) then Some(Closure)
    else None
  }

  /** The critical sections of a run, in the order in which they held the lock. */
  function Sections(actions: seq<Action>): seq<Section> {
    if actions == [] then []
    else
      var last := SectionOf(Behave(actions[..|actions| - 1]), actions[|actions| - 1]);
      Sections(actions[..|actions| - 1]) + if last.Some? then [last.value] else []
  }

  /** What Err reports after some critical sections: the first decides. */
  function FirstError(sections: seq<Section>): Option<string> {
    if sections != [] && sections[0].Failure? then Some(sections[0].error) else None
  }

  lemma SectionStep(s: State, a: Action, sections: seq<Section>)
    requires s.err == FirstError(sections) && (s.closed <==> Closure in sections)
    requires s.err.None? && !s.closed ==> sections == []
    ensures var t, x := Next(s, a), SectionOf(s, a);
      var after := sections + if x.Some? then [x.value] else [];
      && t.err == FirstError(after) && (t.closed <==> Closure in after)
      && (t.err.None? && !t.closed ==> after == [])
  {
  }

  /** The error a connection reports is that of the first failure whose critical section
      came before the connection was closed; there is none if there was no such failure. */
  lemma {:induction false} ErrorExact(actions: seq<Action>)
    ensures var s := Behave(actions);
      && s.err == FirstError(Sections(actions))
      && (s.closed <==> Closure in Sections(actions))
      && (s.err.None? && !s.closed ==> Sections(actions) == [])
  {
    hide Next, SectionOf, FirstError;
    if actions == [] {
      assert FirstError([]) == None by { NoSections(); }
    } else {
      var front := actions[..|actions| - 1];
      ErrorExact(front);
      SectionStep(Behave(front), actions[|actions| - 1], Sections(front));
    }
  }

  lemma NoSections()
    ensures FirstError([]) == None
  {
  }

  lemma BehaveSnoc(actions: seq<Action>, a: Action)
    ensures Behave(actions + [a]) == Next(Behave(actions), a)
  {
    hide Next;
    assert (actions + [a])[..|actions|] == actions;
  }

  /** A call of fail on an open connection without an error records its own. */
  lemma FailRecords(actions: seq<Action>, t: nat, e: string)
    requires PcOf(Behave(actions), t) == Idle
    ensures var s := Behave(actions);
      Behave(actions + [Fail(t, e)] + [Record(t)]).err == if s.err.None? && !s.closed then Some(e) else s.err
  {
    hide Behave;
    BehaveSnoc(actions, Fail(t, e));
    BehaveSnoc(actions + [Fail(t, e)], Record(t));
  }

  /** So does a write that fails. */
  lemma TearRecords(actions: seq<Action>, n: nat, e: string)
    requires Behave(actions).loop.Writing? && n < |Behave(actions).loop.frame|
    ensures var s := Behave(actions);
      var t := Behave(actions + [Tear(n, e)] + [LoopRecord]);
      && t.err == (if s.err.None? && !s.closed then Some(e) else s.err)
      && t.wire == s.wire + s.loop.frame[..n] && t.torn == Some((s.loop.frame, n))
  {
    hide Behave;
    BehaveSnoc(actions, Tear(n, e));
    BehaveSnoc(actions + [Tear(n, e)], LoopRecord);
  }

  /** A call of Close closes the connection, once and for all. */
  lemma CloseCloses(actions: seq<Action>, t: nat)
    requires PcOf(Behave(actions), t) == Idle && !Behave(actions).closed
    ensures var s := Behave(actions + [Close(t)] + [SetClosed(t)] + [Shut(t)]);
      s.closed && s.closing && PcOf(s, t) == Idle
  {
    hide Behave;
    BehaveSnoc(actions, Close(t));
    BehaveSnoc(actions + [Close(t)], SetClosed(t));
    BehaveSnoc(actions + [Close(t)] + [SetClosed(t)], Shut(t));
  }

  /** After a write failed, the loop by itself comes to an end, and by then the connection
      is closed. */
  lemma TearStops(actions: seq<Action>, n: nat, e: string)
    requires Behave(actions).loop.Writing? && n < |Behave(actions).loop.frame|
    ensures var s := Behave(actions);
      var t := Behave(actions + [Tear(n, e)] + [LoopRecord] + [LoopSetClosed] + [LoopShut]);
      && t.loop == Gone && t.closed && t.closing == (!s.closed || s.closing)
      && t.queue == s.queue && t.pcs == s.pcs
  {
    hide Behave;
    BehaveSnoc(actions, Tear(n, e));
    BehaveSnoc(actions + [Tear(n, e)], LoopRecord);
    BehaveSnoc(actions + [Tear(n, e)] + [LoopRecord], LoopSetClosed);
    BehaveSnoc(actions + [Tear(n, e)] + [LoopRecord] + [LoopSetClosed], LoopShut);
  }

  /** Between two frames the loop leaves once the closing channel is closed, and only
      then. */
  lemma LoopLeaves(actions: seq<Action>)
    requires Behave(actions).loop == Selecting
    ensures Behave(actions + [Leave]) == Behave(actions).(loop := if Behave(actions).closing then Gone else Selecting)
  {
    hide Behave;
    BehaveSnoc(actions, Leave);
  }

  /** The step closes the closing channel. */
  predicate Shuts(s: State, a: Action) {
    (a.Shut? && PcOf(s, a.t) == Shutting) || (a.LoopShut? && s.loop == Stopping(Shutting))
  }

  /** No step closes the closing channel when it is closed already, or the channel of a
      flush marker. */
  lemma ShutsOnce(actions: seq<Action>, a: Action)
    requires Shuts(Behave(actions), a)
    ensures !Behave(actions).closing && Behave(actions + [a]).closing
  {
    hide Behave, InOrder, UniqueMarkers, DoneIsWritten;
    EveryRun(actions);
    BehaveSnoc(actions, a);
  }

  lemma ReportsOnce(actions: seq<Action>)
    requires Behave(actions).loop == Selecting && Behave(actions).queue != [] && Behave(actions).queue[0].Marker?
    ensures Behave(actions).queue[0].id !in Behave(actions).done
    ensures Behave(actions + [Receive]).done == Behave(actions).done + {Behave(actions).queue[0].id}
  {
    hide Behave, InOrder, UniqueMarkers, ClosesOnce;
    EveryRun(actions);
    MarkerOnce(Behave(actions));
    BehaveSnoc(actions, Receive);
  }

  /** After a write failed the loop ends with the error recorded, or the connection was
      closed by then. */
  ghost predicate TornIsKnown(s: State) {
    && (s.loop.Stopping? && !s.loop.pc.Failing? ==> s.err.Some? || s.closed)
    && (s.torn.Some? && s.loop == Gone ==> s.err.Some? || s.closed)
    && (s.loop == Gone && s.torn.None? ==> s.closing)
    && (s.loop.Stopping? ==> s.torn.Some?)
  }

  lemma TornStep(s: State, a: Action)
    requires TornIsKnown(s) && ClosesOnce(s)
    ensures TornIsKnown(Next(s, a))
  {
  }

  lemma {:induction false} TornRun(actions: seq<Action>)
    ensures TornIsKnown(Behave(actions))
  {
    hide Next, ClosesOnce;
    if actions == [] {
    } else {
      EveryRun(actions[..|actions| - 1]);
      TornRun(actions[..|actions| - 1]);
      TornStep(Behave(actions[..|actions| - 1]), actions[|actions| - 1]);
    }
  }

  ghost predicate NeverClosed(actions: seq<Action>) {
    forall i :: 0 <= i < |actions| ==> !actions[i].Close?
  }

  /** Without a call of Close, whatever is on its way to close the connection, or has
      done so, recorded an error first. */
  ghost predicate OnlyFailuresClose(s: State) {
    && (s.closed ==> s.err.Some?)
    && (forall t: nat :: PcOf(s, t) == Closing || PcOf(s, t) == Shutting ==> s.err.Some?)
    && (s.loop == Stopping(Closing) || s.loop == Stopping(Shutting) ==> s.err.Some?)
  }

  lemma OnlyFailuresStep(s: State, a: Action)
    requires OnlyFailuresClose(s) && !a.Close?
    ensures OnlyFailuresClose(Next(s, a))
  {
    var s' := Next(s, a);
    assert s.err.Some? ==> s'.err == s.err;
    forall t: nat | PcOf(s', t) == Closing || PcOf(s', t) == Shutting ensures s'.err.Some? {
      NewClosing(s, a, t);
    }
  }

  lemma NewClosing(s: State, a: Action, t: nat)
    requires PcOf(Next(s, a), t) == Closing || PcOf(Next(s, a), t) == Shutting
    ensures PcOf(s, t) == Closing || PcOf(s, t) == Shutting || a == Close(t)
      || (a == Record(t) && PcOf(s, t).Failing?)
  {
  }

  /** Without a call of Close, a write that failed has its error reported once the loop is
      gone: by then Err is not nil. */
  lemma {:induction false} TornIsReported(actions: seq<Action>)
    requires NeverClosed(actions)
    ensures OnlyFailuresClose(Behave(actions))
    ensures Behave(actions).torn.Some? && Behave(actions).loop == Gone ==> Behave(actions).err.Some?
  {
    hide Next, OnlyFailuresClose;
    TornRun(actions);
    if actions == [] {
      assert OnlyFailuresClose(INITIAL) by { NothingCloses(); }
    } else {
      TornIsReported(actions[..|actions| - 1]);
      OnlyFailuresStep(Behave(actions[..|actions| - 1]), actions[|actions| - 1]);
    }
    assert Behave(actions).closed ==> Behave(actions).err.Some? by { ClosedFailed(Behave(actions)); }
  }

  lemma NothingCloses()
    ensures OnlyFailuresClose(INITIAL)
  {
  }

  lemma ClosedFailed(s: State)
    requires OnlyFailuresClose(s)
    ensures s.closed ==> s.err.Some?
  {
  }

  // ---- what gets through -------------------------------------------------------

  /** A packet sent on an open connection is accepted, behind all others, unless the
      queue is full. */
  lemma SendAccepts(actions: seq<Action>, t: nat, frame: seq<byte>)
    requires PcOf(Behave(actions), t) == Idle && !Behave(actions).closed
    ensures var s, u := Behave(actions), Behave(actions + [Send(t, frame)] + [Enqueue(t)]);
      && u.accepted == (if |s.queue| < WRITE_QUEUE then s.accepted + [Frame(frame)] else s.accepted)
      && u.queue == (if |s.queue| < WRITE_QUEUE then s.queue + [Frame(frame)] else s.queue)
      && PcOf(u, t) == Idle
  {
    hide Behave;
    BehaveSnoc(actions, Send(t, frame));
    BehaveSnoc(actions + [Send(t, frame)], Enqueue(t));
  }

  /** A closed connection accepts nothing. */
  lemma ClosedAcceptsNothing(actions: seq<Action>, t: nat, frame: seq<byte>)
    requires Behave(actions).closed && PcOf(Behave(actions), t) == Idle
    ensures Behave(actions + [Send(t, frame)]) == Behave(actions) && Behave(actions + [Flush(t)]) == Behave(actions)
  {
    hide Behave;
    BehaveSnoc(actions, Send(t, frame));
    BehaveSnoc(actions, Flush(t));
  }

  /** A goroutine inside one method of the connection does not begin another. */
  lemma OneCallAtATime(actions: seq<Action>, a: Action)
    requires a.Send? || a.Flush? || a.Fail? || a.Close?
    requires PcOf(Behave(actions), a.t) != Idle
    ensures Behave(actions + [a]) == Behave(actions)
  {
    hide Behave;
    BehaveSnoc(actions, a);
  }

  /** A flush on an open connection queues a marker of its own behind everything accepted
      so far, once there is room, and waits for it. */
  lemma FlushMarks(actions: seq<Action>, t: nat)
    requires PcOf(Behave(actions), t) == Idle && !Behave(actions).closed && |Behave(actions).queue| < WRITE_QUEUE
    ensures var s, u := Behave(actions), Behave(actions + [Flush(t)] + [Mark(t)]);
      && PcOf(u, t).Awaiting? && u.accepted == s.accepted + [Marker(PcOf(u, t).id)]
      && u.queue == s.queue + [Marker(PcOf(u, t).id)]
  {
    hide Behave;
    BehaveSnoc(actions, Flush(t));
    BehaveSnoc(actions + [Flush(t)], Mark(t));
  }

  /** A flush whose marker was reported returns nil, and one can give up at any time. */
  lemma FlushReturns(actions: seq<Action>, t: nat)
    requires PcOf(Behave(actions), t).Awaiting?
    ensures var s, id := Behave(actions), PcOf(Behave(actions), t).id;
      && Behave(actions + [Flushed(t)]) == (if id in s.done then Goto(s, t, Idle).(flushed := s.flushed + {id}) else s)
      && Behave(actions + [GiveUp(t)]) == Goto(s, t, Idle)
  {
    hide Behave;
    BehaveSnoc(actions, Flushed(t));
    BehaveSnoc(actions, GiveUp(t));
  }

  /** Every marker the loop has come to has had its channel closed. */
  ghost predicate Reported(s: State) {
    forall x :: x in s.written && x.Marker? ==> x.id in s.done
  }

  lemma ReportedStep(s: State, a: Action)
    requires Reported(s)
    ensures Reported(Next(s, a))
  {
    if a.Receive? || a.Write? {
    } else {
      OtherSteps(s, a);
      hide Next;
    }
  }

  lemma {:induction false} ReportedRun(actions: seq<Action>)
    ensures Reported(Behave(actions))
  {
    hide Next, Reported;
    if actions == [] {
      NothingWritten();
    } else {
      ReportedRun(actions[..|actions| - 1]);
      ReportedStep(Behave(actions[..|actions| - 1]), actions[|actions| - 1]);
    }
  }

  lemma NothingWritten()
    ensures Reported(INITIAL)
  {
  }

  /** The one step the loop takes by itself, as long as writes go through. */
  function LoopTurn(s: State): Action {
    if s.loop.Writing? then Write else Receive
  }

  function LoopTurns(s: State, n: nat): State
    decreases n
  {
    if n == 0 then s else LoopTurns(Next(s, LoopTurn(s)), n - 1)
  }

  function TurnsLeft(s: State): nat {
    2 * |s.queue| + if s.loop.Writing? then 1 else 0
  }

  lemma TurnKeeps(s: State)
    requires s.loop == Selecting || s.loop.Writing?
    ensures var t := Next(s, LoopTurn(s));
      && (t.loop == Selecting || t.loop.Writing?) && t.torn == s.torn
      && t.accepted == s.accepted && t.pcs == s.pcs
      && if TurnsLeft(s) > 0 then TurnsLeft(t) < TurnsLeft(s) else t == s
  {
  }

  lemma {:induction false} TurnsDrain(s: State, n: nat)
    requires InOrder(s) && Reported(s) && (s.loop == Selecting || s.loop.Writing?) && s.torn.None?
    requires n >= TurnsLeft(s)
    ensures var t := LoopTurns(s, n);
      && t.queue == [] && t.loop == Selecting && t.torn.None? && t.pcs == s.pcs && t.accepted == s.accepted
      && InOrder(t) && Reported(t)
    decreases n
  {
    hide Next, InOrder, Reported, LoopTurn;
    if n == 0 {
    } else {
      TurnKeeps(s);
      InOrderStep(s, LoopTurn(s));
      ReportedStep(s, LoopTurn(s));
      TurnsDrain(Next(s, LoopTurn(s)), n - 1);
    }
  }

  /** In every reachable state: left to itself, and with writes going through, the loop
      writes everything accepted, in order, and reports every marker, so that each Flush
      that waits can return nil. */
  lemma LoopDrains(actions: seq<Action>, n: nat)
    requires Behave(actions).loop == Selecting || Behave(actions).loop.Writing?
    requires n >= TurnsLeft(Behave(actions))
    ensures var s, t := Behave(actions), LoopTurns(Behave(actions), n);
      && t.written == s.accepted && t.wire == Data(s.accepted) && t.pcs == s.pcs
      && forall id :: Marker(id) in s.accepted ==> id in t.done
  {
    hide Behave, Next, LoopTurns, Data;
    EveryRun(actions);
    ReportedRun(actions);
    var s := Behave(actions);
    TurnsDrain(s, n);
    var t := LoopTurns(s, n);
    assert t.written + [] + [] == t.written && Data(t.written) + [] == Data(t.written);
    forall id | Marker(id) in s.accepted ensures id in t.done {
      assert Marker(id) in t.written;
    }
  }
}
