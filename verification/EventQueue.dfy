/** The queue between a backend's desktop goroutine and the client: a soft limit,
    in-place coalescing of presentation events, and no loss of anything else. */
module EventQueue {
  import opened Bytes

  type WindowID = nat

  datatype Event =
    | Configure(window: WindowID, x: int, y: int, width: int, height: int)
    | Minimized(window: WindowID, minimized: bool)
    | CloseRequest(window: WindowID)
    | ExitRequest
    | Motion(window: WindowID, x: int, y: int)
    | Button(window: WindowID, button: int, pressed: bool, x: int, y: int)
    | Key(window: WindowID, pressed: bool, name: string, keysym: int, text: string, keycode: int, modifiers: seq<string>)
    | Focus(window: WindowID)
    | FocusLost(window: WindowID)
    | ClipboardChange(content: seq<byte>)

  /** Events of one class supersede each other. */
  datatype Class = MotionOf(window: WindowID) | GeometryOf(window: WindowID) | Clipboard

  predicate IsCoalescible(e: Event) {
    e.Configure? || e.Motion? || e.ClipboardChange?
  }

  predicate CanCoalesce(old_: Event, next: Event) {
    match next
    case Configure(w, _, _, _, _) => old_.Configure? && old_.window == w
    case Motion(w, _, _) => old_.Motion? && old_.window == w
    case ClipboardChange(_) => old_.ClipboardChange?
    case _ => false
  }

  function ClassOf(e: Event): Option<Class> {
    match e
    case Configure(w, _, _, _, _) => Some(GeometryOf(w))
    case Motion(w, _, _) => Some(MotionOf(w))
    case ClipboardChange(_) => Some(Clipboard)
    case _ => None
  }

  // ---- what a push does ----------------------------------------------------

  /** The position of the last of the first n events that next may replace, |es| if
      there is none. */
  function LastMatchBelow(es: seq<Event>, next: Event, n: nat): nat
    requires n <= |es|
  {
    if n == 0 then |es| else if CanCoalesce(es[n - 1], next) then n - 1 else LastMatchBelow(es, next, n - 1)
  }

  /** The position of the first event that may be sacrificed, |es| if there is none. */
  function FirstVictim(es: seq<Event>): (i: nat)
    ensures i <= |es|
  {
    if es == [] || IsCoalescible(es[0]) then 0 else 1 + FirstVictim(es[1..])
  }

  /** The queue after a push, and whether the event was taken in. */
  function Pushed(es: seq<Event>, maxPending: int, e: Event): (seq<Event>, bool) {
    if |es| < maxPending then (es + [e], true)
    else if IsCoalescible(e) then
      var i := LastMatchBelow(es, e, |es|);
      if i < |es| then (es[i := e], true) else (es, false)
    else
      var i := FirstVictim(es);
      if i < |es| then (es[..i] + es[i + 1..] + [e], true) else (es + [e], true)
  }

  lemma {:induction false} LastMatchFacts(es: seq<Event>, e: Event, n: nat)
    requires n <= |es|
    ensures var i := LastMatchBelow(es, e, n);
      && (i < |es| ==> i < n && CanCoalesce(es[i], e) && forall j :: i < j < n ==> !CanCoalesce(es[j], e))
      && (i >= |es| ==> i == |es| && forall j :: 0 <= j < n ==> !CanCoalesce(es[j], e))
  {
    if n == 0 || CanCoalesce(es[n - 1], e) {
    } else {
      LastMatchFacts(es, e, n - 1);
    }
  }

  lemma {:induction false} FirstVictimFacts(es: seq<Event>)
    ensures FirstVictim(es) < |es| ==> IsCoalescible(es[FirstVictim(es)])
    ensures forall j :: 0 <= j < FirstVictim(es) ==> !IsCoalescible(es[j])
  {
    if es == [] || IsCoalescible(es[0]) {
    } else {
      FirstVictimFacts(es[1..]);
      forall j | 0 <= j < FirstVictim(es) ensures !IsCoalescible(es[j]) {
        assert j > 0 ==> es[j] == es[1..][j - 1];
      }
    }
  }

  /** The queue as it runs. The wake channel holds one token or none. */
  class Queue {
    var pending: seq<Event>
    const maxPending: int
    var wake: bool

    constructor (maxPending: int)
      ensures pending == [] && !wake && this.maxPending == maxPending
    {
      this.maxPending := maxPending;
      pending := [];
      wake := false;
    }

    method Push(e: Event)
      modifies this
      ensures pending == Pushed(old(pending), maxPending, e).0
      ensures wake == (old(wake) || Pushed(old(pending), maxPending, e).1)
    {
      var added := PushLocked(e);
      if added {
        wake := true;
      }
    }

    method PushLocked(e: Event) returns (added: bool)
      modifies this
      ensures (pending, added) == Pushed(old(pending), maxPending, e)
      ensures wake == old(wake)
    {
      if |pending| < maxPending {
        pending := pending + [e];
        return true;
      }
      if IsCoalescible(e) {
        var i := |pending| - 1;
        while i >= 0
          invariant -1 <= i < |pending|
          invariant pending == old(pending) && wake == old(wake)
          invariant LastMatchBelow(pending, e, |pending|) == LastMatchBelow(pending, e, i + 1)
        {
          if CanCoalesce(pending[i], e) {
            pending := pending[i := e];
            return true;
          }
          i := i - 1;
        }
        return false;
      }
      var i := 0;
      while i < |pending|
        invariant 0 <= i <= |pending|
        invariant pending == old(pending) && wake == old(wake)
        invariant FirstVictim(pending) == i + FirstVictim(pending[i..])
      {
        if IsCoalescible(pending[i]) {
          pending := pending[..i] + pending[i + 1..] + [e];
          return true;
        }
        assert pending[i..][1..] == pending[i + 1..];
        i := i + 1;
      }
      pending := pending + [e];
      return true;
    }

    method Pop() returns (r: Option<Event>)
      modifies this
      ensures r == if old(pending) == [] then None else Some(old(pending)[0])
      ensures pending == if old(pending) == [] then [] else old(pending)[1..]
      ensures wake == old(wake)
    {
      if |pending| == 0 {
        return None;
      }
      r := Some(pending[0]);
      pending := pending[1..];
    }
  }

  // ---- runs ----------------------------------------------------------------

  datatype Op = Push(e: Event) | Pop

  /** The queue after a run of operations, and what went in and came out of it. */
  datatype Run = Run(pending: seq<Event>, pushed: seq<Event>, popped: seq<Event>)

  function Step(r: Run, maxPending: int, op: Op): Run {
    match op
    case Push(e) => Run(Pushed(r.pending, maxPending, e).0, r.pushed + [e], r.popped)
    case Pop =>
      if r.pending == [] then r
      else Run(r.pending[1..], r.pushed, r.popped + [r.pending[0]])
  }

  function Exec(ops: seq<Op>, maxPending: int): Run {
    if ops == [] then Run([], [], [])
    else Step(Exec(ops[..|ops| - 1], maxPending), maxPending, ops[|ops| - 1])
  }

  /** The events that must not be lost, or those of one class. */
  datatype Selection = Important | OfClass(c: Class)

  predicate Keeps(sel: Selection, e: Event) {
    match sel
    case Important => !IsCoalescible(e)
    case OfClass(c) => ClassOf(e) == Some(c)
  }

  function Filter(es: seq<Event>, sel: Selection): seq<Event> {
    if es == [] then [] else (if Keeps(sel, es[0]) then [es[0]] else []) + Filter(es[1..], sel)
  }

  lemma {:induction false} FilterAppend(a: seq<Event>, b: seq<Event>, sel: Selection)
    ensures Filter(a + b, sel) == Filter(a, sel) + Filter(b, sel)
  {
    if a == [] {
      assert a + b == b;
    } else {
      hide Keeps;
      assert (a + b)[0] == a[0] && (a + b)[1..] == a[1..] + b;
      FilterAppend(a[1..], b, sel);
      var head := if Keeps(sel, a[0]) then [a[0]] else [];
      assert head + (Filter(a[1..], sel) + Filter(b, sel)) == (head + Filter(a[1..], sel)) + Filter(b, sel);
    }
  }

  lemma {:induction false} FilterNone(es: seq<Event>, sel: Selection)
    requires forall i :: 0 <= i < |es| ==> !Keeps(sel, es[i])
    ensures Filter(es, sel) == []
  {
    if es == [] {
    } else {
      FilterNone(es[1..], sel);
    }
  }

  function One(e: Event, sel: Selection): seq<Event> {
    if Keeps(sel, e) then [e] else []
  }

  lemma FilterSnoc(a: seq<Event>, e: Event, sel: Selection)
    ensures Filter(a + [e], sel) == Filter(a, sel) + One(e, sel)
  {
    FilterAppend(a, [e], sel);
    assert [e][1..] == [];
  }

  lemma FilterAround(es: seq<Event>, i: nat, sel: Selection)
    requires i < |es|
    ensures Filter(es, sel) == Filter(es[..i], sel) + One(es[i], sel) + Filter(es[i + 1..], sel)
  {
    assert es == es[..i] + [es[i]] + es[i + 1..];
    FilterAppend(es[..i] + [es[i]], es[i + 1..], sel);
    FilterSnoc(es[..i], es[i], sel);
  }

  // ---- subsequences --------------------------------------------------------

  /** a is b with some elements left out. */
  ghost predicate Sub(a: seq<Event>, b: seq<Event>) {
    if b == [] then a == []
    else
      || Sub(a, b[..|b| - 1])
      || (a != [] && a[|a| - 1] == b[|b| - 1] && Sub(a[..|a| - 1], b[..|b| - 1]))
  }

  lemma SubSnoc(a: seq<Event>, b: seq<Event>, x: Event)
    requires Sub(a, b)
    ensures Sub(a, b + [x]) && Sub(a + [x], b + [x])
  {
    assert (b + [x])[..|b|] == b && (a + [x])[..|a|] == a;
  }

  lemma {:induction false} SubWithout(a: seq<Event>, i: nat, b: seq<Event>)
    requires i < |a| && Sub(a, b)
    ensures Sub(a[..i] + a[i + 1..], b)
  {
    var c := a[..i] + a[i + 1..];
    var front := b[..|b| - 1];
    if Sub(a, front) {
      SubWithout(a, i, front);
    } else if i == |a| - 1 {
      assert c == a[..|a| - 1];
    } else {
      SubWithout(a[..|a| - 1], i, front);
      assert c[..|c| - 1] == a[..|a| - 1][..i] + a[..|a| - 1][i + 1..];
    }
  }

  // ---- what every run keeps ------------------------------------------------

  /** Nothing important is lost or reordered, and a queue beyond its limit holds
      nothing else. */
  ghost predicate Conserved(r: Run, maxPending: int) {
    && Filter(r.popped, Important) + Filter(r.pending, Important) == Filter(r.pushed, Important)
    && (|r.pending| > maxPending ==> forall i :: 0 <= i < |r.pending| ==> !IsCoalescible(r.pending[i]))
  }

  /** Events that came out, wait, and were pushed at all: the former are some of the
      latter in order, and the newest that waits is the newest there is. */
  ghost predicate FreshEvents(out: seq<Event>, waiting: seq<Event>, all: seq<Event>) {
    && Sub(out + waiting, all)
    && (waiting != [] ==> all != [] && waiting[|waiting| - 1] == all[|all| - 1])
  }

  /** The events of a class come out in the order they went in, some left out, and
      the newest one that waits is the newest there is. */
  ghost predicate Fresh(r: Run, c: Class) {
    FreshEvents(Filter(r.popped, OfClass(c)), Filter(r.pending, OfClass(c)), Filter(r.pushed, OfClass(c)))
  }

  lemma PopFilter(r: Run, maxPending: int, sel: Selection)
    requires r.pending != []
    ensures var s := Step(r, maxPending, Pop);
      && Filter(s.popped, sel) == Filter(r.popped, sel) + One(r.pending[0], sel)
      && Filter(r.pending, sel) == One(r.pending[0], sel) + Filter(s.pending, sel)
  {
    FilterSnoc(r.popped, r.pending[0], sel);
  }

  /** What is selected once event i has been replaced by e. */
  lemma ReplaceFilter(es: seq<Event>, i: nat, e: Event, sel: Selection)
    requires i < |es|
    ensures Filter(es, sel) == Filter(es[..i], sel) + One(es[i], sel) + Filter(es[i + 1..], sel)
    ensures Filter(es[i := e], sel) == Filter(es[..i], sel) + One(e, sel) + Filter(es[i + 1..], sel)
  {
    hide Filter, One;
    FilterAround(es, i, sel);
    var after := es[i := e];
    assert after[..i] == es[..i] && after[i + 1..] == es[i + 1..];
    FilterAround(after, i, sel);
  }

  /** What is selected once event i has made room for e. */
  lemma EvictFilter(es: seq<Event>, i: nat, e: Event, sel: Selection)
    requires i < |es|
    ensures Filter(es, sel) == Filter(es[..i], sel) + One(es[i], sel) + Filter(es[i + 1..], sel)
    ensures Filter(es[..i] + es[i + 1..] + [e], sel) == Filter(es[..i], sel) + Filter(es[i + 1..], sel) + One(e, sel)
  {
    hide Filter, One;
    FilterAround(es, i, sel);
    FilterSnoc(es[..i] + es[i + 1..], e, sel);
    FilterAppend(es[..i], es[i + 1..], sel);
  }

  lemma ConservedPush(r: Run, maxPending: int, e: Event)
    requires Conserved(r, maxPending)
    ensures Conserved(Step(r, maxPending, Push(e)), maxPending)
  {
    hide Filter;
    FilterSnoc(r.pushed, e, Important);
    if |r.pending| < maxPending {
      FilterSnoc(r.pending, e, Important);
    } else if IsCoalescible(e) {
      var i := LastMatchBelow(r.pending, e, |r.pending|);
      LastMatchFacts(r.pending, e, |r.pending|);
      if i < |r.pending| {
        ReplaceFilter(r.pending, i, e, Important);
      }
    } else {
      var i := FirstVictim(r.pending);
      FirstVictimFacts(r.pending);
      if i < |r.pending| {
        EvictFilter(r.pending, i, e, Important);
      } else {
        FilterSnoc(r.pending, e, Important);
      }
    }
  }

  lemma ConservedStep(r: Run, maxPending: int, op: Op)
    requires Conserved(r, maxPending)
    ensures Conserved(Step(r, maxPending, op), maxPending)
  {
    match op
    case Push(e) => ConservedPush(r, maxPending, e);
    case Pop =>
      if r.pending != [] {
        PopFilter(r, maxPending, Important);
      }
  }

  lemma AddedFresh(out: seq<Event>, waiting: seq<Event>, all: seq<Event>, e: Event)
    requires FreshEvents(out, waiting, all)
    ensures FreshEvents(out, waiting + [e], all + [e])
  {
    SubSnoc(out + waiting, all, e);
    assert out + (waiting + [e]) == (out + waiting) + [e];
  }

  lemma ReplacedFresh(out: seq<Event>, kept: seq<Event>, x: Event, all: seq<Event>, e: Event)
    requires FreshEvents(out, kept + [x], all)
    ensures FreshEvents(out, kept + [e], all + [e])
  {
    var was := out + (kept + [x]);
    SubWithout(was, |was| - 1, all);
    assert was[..|was| - 1] + was[|was|..] == out + kept;
    SubSnoc(out + kept, all, e);
    assert out + (kept + [e]) == (out + kept) + [e];
  }

  lemma EvictedFresh(out: seq<Event>, x: Event, waiting: seq<Event>, all: seq<Event>)
    requires FreshEvents(out, [x] + waiting, all)
    ensures FreshEvents(out, waiting, all)
  {
    var was := out + ([x] + waiting);
    SubWithout(was, |out|, all);
    assert was[..|out|] + was[|out| + 1..] == out + waiting;
    if waiting != [] {
      assert ([x] + waiting)[|waiting|] == waiting[|waiting| - 1];
    }
  }

  lemma PoppedFresh(out: seq<Event>, x: Event, waiting: seq<Event>, all: seq<Event>)
    requires FreshEvents(out, [x] + waiting, all)
    ensures FreshEvents(out + [x], waiting, all)
  {
    assert (out + [x]) + waiting == out + ([x] + waiting);
    if waiting != [] {
      assert ([x] + waiting)[|waiting|] == waiting[|waiting| - 1];
    }
  }

  lemma FreshReplace(r: Run, e: Event, c: Class, i: nat)
    requires Fresh(r, c) && i < |r.pending| && CanCoalesce(r.pending[i], e)
    requires forall j :: i < j < |r.pending| ==> !CanCoalesce(r.pending[j], e)
    ensures Fresh(Run(r.pending[i := e], r.pushed + [e], r.popped), c)
  {
    hide Filter, FreshEvents;
    var sel := OfClass(c);
    var all, kept := Filter(r.pushed, sel), Filter(r.pending[..i], sel);
    FilterSnoc(r.pushed, e, sel);
    ReplaceFilter(r.pending, i, e, sel);
    assert Keeps(sel, e) <==> Keeps(sel, r.pending[i]);
    if Keeps(sel, e) {
      FilterNone(r.pending[i + 1..], sel);
      assert kept + [e] + [] == kept + [e] && kept + [r.pending[i]] + [] == kept + [r.pending[i]];
      ReplacedFresh(Filter(r.popped, sel), kept, r.pending[i], all, e);
    } else {
      assert all + [] == all;
    }
  }

  lemma FreshEvict(r: Run, e: Event, c: Class, i: nat)
    requires Fresh(r, c) && i < |r.pending| && !IsCoalescible(e)
    requires forall j :: 0 <= j < i ==> !IsCoalescible(r.pending[j])
    ensures Fresh(Run(r.pending[..i] + r.pending[i + 1..] + [e], r.pushed + [e], r.popped), c)
  {
    hide Filter, FreshEvents;
    var sel := OfClass(c);
    var all, later := Filter(r.pushed, sel), Filter(r.pending[i + 1..], sel);
    FilterSnoc(r.pushed, e, sel);
    EvictFilter(r.pending, i, e, sel);
    FilterNone(r.pending[..i], sel);
    assert all + [] == all;
    ghost var none: seq<Event> := [];
    assert none + later + none == later && none + none + later == later;
    if Keeps(sel, r.pending[i]) {
      assert none + [r.pending[i]] + later == [r.pending[i]] + later;
      EvictedFresh(Filter(r.popped, sel), r.pending[i], later, all);
    }
  }

  /** A push that adds an event at the end, or changes nothing. */
  lemma FreshAppend(r: Run, e: Event, c: Class)
    requires Fresh(r, c)
    ensures Fresh(Run(r.pending + [e], r.pushed + [e], r.popped), c)
    ensures (forall i :: 0 <= i < |r.pending| ==> !CanCoalesce(r.pending[i], e)) ==>
      Fresh(Run(r.pending, r.pushed + [e], r.popped), c)
  {
    hide Filter;
    var sel := OfClass(c);
    var out, waiting, all := Filter(r.popped, sel), Filter(r.pending, sel), Filter(r.pushed, sel);
    FilterSnoc(r.pushed, e, sel);
    FilterSnoc(r.pending, e, sel);
    assert all + [] == all && waiting + [] == waiting;
    if Keeps(sel, e) {
      AddedFresh(out, waiting, all, e);
      SubSnoc(out + waiting, all, e);
      if forall i :: 0 <= i < |r.pending| ==> !CanCoalesce(r.pending[i], e) {
        FilterNone(r.pending, sel);
      }
    }
  }

  lemma FreshPush(r: Run, maxPending: int, e: Event, c: Class)
    requires Fresh(r, c)
    ensures Fresh(Step(r, maxPending, Push(e)), c)
  {
    hide Fresh;
    FreshAppend(r, e, c);
    if |r.pending| >= maxPending && IsCoalescible(e) {
      var i := LastMatchBelow(r.pending, e, |r.pending|);
      LastMatchFacts(r.pending, e, |r.pending|);
      if i < |r.pending| {
        FreshReplace(r, e, c, i);
      }
    } else if |r.pending| >= maxPending {
      var i := FirstVictim(r.pending);
      FirstVictimFacts(r.pending);
      if i < |r.pending| {
        FreshEvict(r, e, c, i);
      }
    }
  }

  lemma FreshStep(r: Run, maxPending: int, op: Op, c: Class)
    requires Fresh(r, c)
    ensures Fresh(Step(r, maxPending, op), c)
  {
    match op
    case Push(e) => FreshPush(r, maxPending, e, c);
    case Pop =>
      if r.pending != [] {
        hide Filter, Sub;
        var sel := OfClass(c);
        var s := Step(r, maxPending, Pop);
        PopFilter(r, maxPending, sel);
        assert Filter(r.popped, sel) + [] == Filter(r.popped, sel) && [] + Filter(s.pending, sel) == Filter(s.pending, sel);
        if Keeps(sel, r.pending[0]) {
          PoppedFresh(Filter(r.popped, sel), r.pending[0], Filter(s.pending, sel), Filter(r.pushed, sel));
        }
      }
  }

  /** Conservation: after any run, the important events popped and pending are all
      those ever pushed, in order. */
  lemma {:induction false} Conservation(ops: seq<Op>, maxPending: int)
    ensures Conserved(Exec(ops, maxPending), maxPending)
  {
    if ops == [] {
    } else {
      Conservation(ops[..|ops| - 1], maxPending);
      ConservedStep(Exec(ops[..|ops| - 1], maxPending), maxPending, ops[|ops| - 1]);
    }
  }

  /** Freshness, after any run and for every class. */
  lemma {:induction false} Freshness(ops: seq<Op>, maxPending: int, c: Class)
    ensures Fresh(Exec(ops, maxPending), c)
  {
    if ops == [] {
    } else {
      Freshness(ops[..|ops| - 1], maxPending, c);
      FreshStep(Exec(ops[..|ops| - 1], maxPending), maxPending, ops[|ops| - 1], c);
    }
  }

  // ---- what a push comes to ------------------------------------------------

  /** Motion, geometry and clipboard changes, and nothing else, may be dropped; one
      supersedes another if and only if both are of one class. */
  lemma Superseding(old_: Event, e: Event)
    ensures IsCoalescible(e) <==> e.Motion? || e.Configure? || e.ClipboardChange?
    ensures IsCoalescible(e) <==> ClassOf(e).Some?
    ensures CanCoalesce(old_, e) <==> ClassOf(e).Some? && ClassOf(old_) == ClassOf(e)
    ensures ClassOf(old_) == ClassOf(e) && ClassOf(e).Some? ==>
      && (e.ClipboardChange? <==> old_.ClipboardChange?) && (e.Motion? <==> old_.Motion?)
      && (!e.ClipboardChange? ==> old_.window == e.window)
  {
  }

  /** A queue with room takes every event in, at its end. */
  lemma PushWithRoom(ops: seq<Op>, maxPending: int, e: Event)
    requires |Exec(ops, maxPending).pending| < maxPending
    ensures Exec(ops + [Push(e)], maxPending).pending == Exec(ops, maxPending).pending + [e]
  {
    assert (ops + [Push(e)])[..|ops|] == ops;
  }

  /** Every push of a run found the queue below its limit. */
  ghost predicate NeverFull(ops: seq<Op>, maxPending: int) {
    forall i :: 0 <= i < |ops| && ops[i].Push? ==> |Exec(ops[..i], maxPending).pending| < maxPending
  }

  lemma NothingLostStep(r: Run, maxPending: int, op: Op)
    requires r.popped + r.pending == r.pushed && (op.Push? ==> |r.pending| < maxPending)
    ensures var t := Step(r, maxPending, op); t.popped + t.pending == t.pushed
  {
    if op.Push? {
      assert r.popped + (r.pending + [op.e]) == (r.popped + r.pending) + [op.e];
    } else if r.pending != [] {
      assert (r.popped + [r.pending[0]]) + r.pending[1..] == r.popped + r.pending;
    }
  }

  /** Below the limit the queue is a plain queue: what came out and what waits is what
      went in, in order. */
  lemma {:induction false} NothingLost(ops: seq<Op>, maxPending: int)
    requires NeverFull(ops, maxPending)
    ensures var r := Exec(ops, maxPending); r.popped + r.pending == r.pushed
  {
    hide Step;
    if ops == [] {
    } else {
      var front := ops[..|ops| - 1];
      forall i | 0 <= i < |front| && front[i].Push? ensures |Exec(front[..i], maxPending).pending| < maxPending {
        assert front[..i] == ops[..i] && front[i] == ops[i];
      }
      NothingLost(front, maxPending);
      NothingLostStep(Exec(front, maxPending), maxPending, ops[|ops| - 1]);
    }
  }

  /** e waits at position i, and nothing that waits behind it is of its class. */
  ghost predicate NewestAt(pending: seq<Event>, i: nat, e: Event) {
    i < |pending| && pending[i] == e && forall j :: i < j < |pending| ==> ClassOf(pending[j]) != ClassOf(e)
  }

  /** There is no room for an event that may be dropped, and nothing it supersedes. */
  ghost predicate Refused(pending: seq<Event>, maxPending: int, e: Event) {
    |pending| >= maxPending && ClassOf(e).Some? && forall j :: 0 <= j < |pending| ==> ClassOf(pending[j]) != ClassOf(e)
  }

  /** The only events a push does not take in are those refused; then nothing changes.
      Any other event waits in the end: an important one behind all others, one of a class
      as the newest of it. */
  lemma PushTakesIn(ops: seq<Op>, maxPending: int, e: Event)
    ensures var es, t := Exec(ops, maxPending).pending, Exec(ops + [Push(e)], maxPending).pending;
      && Pushed(es, maxPending, e).1 == !Refused(es, maxPending, e)
      && (Refused(es, maxPending, e) ==> t == es)
      && (!Refused(es, maxPending, e) ==> exists i :: NewestAt(t, i, e))
      && (!Refused(es, maxPending, e) && ClassOf(e).None? ==> t[|t| - 1] == e)
  {
    assert (ops + [Push(e)])[..|ops|] == ops;
    var es := Exec(ops, maxPending).pending;
    var t := Pushed(es, maxPending, e).0;
    assert Exec(ops + [Push(e)], maxPending).pending == t;
    hide Exec, LastMatchBelow, FirstVictim;
    LastMatchFacts(es, e, |es|);
    if |es| >= maxPending && IsCoalescible(e) && LastMatchBelow(es, e, |es|) < |es| {
      var i := LastMatchBelow(es, e, |es|);
      forall j | i < j < |t| ensures ClassOf(t[j]) != ClassOf(e) {
        Superseding(es[j], e);
      }
      assert NewestAt(t, i, e);
      Superseding(es[i], e);
    } else if |es| >= maxPending && IsCoalescible(e) {
      forall j | 0 <= j < |es| ensures ClassOf(es[j]) != ClassOf(e) {
        Superseding(es[j], e);
      }
    } else {
      assert NewestAt(t, |t| - 1, e);
    }
  }

  /** What is not refused has something to supersede: the newest of its class. */
  lemma LastMatchIsNewest(es: seq<Event>, maxPending: int, e: Event)
    requires |es| >= maxPending && ClassOf(e).Some? && !Refused(es, maxPending, e)
    ensures var i := LastMatchBelow(es, e, |es|);
      i < |es| && ClassOf(es[i]) == ClassOf(e) && NewestAt(es[i := e], i, e)
  {
    hide LastMatchBelow, IsCoalescible;
    LastMatchFacts(es, e, |es|);
    forall j | 0 <= j < |es| ensures CanCoalesce(es[j], e) <==> ClassOf(es[j]) == ClassOf(e) {
      Superseding(es[j], e);
    }
    hide CanCoalesce, ClassOf;
  }

  /** An event of a class that a full queue takes in costs the newest of its class: it
      takes its place. */
  lemma PushReplaces(ops: seq<Op>, maxPending: int, e: Event)
    requires |Exec(ops, maxPending).pending| >= maxPending && !Refused(Exec(ops, maxPending).pending, maxPending, e)
    requires ClassOf(e).Some?
    ensures var es, t := Exec(ops, maxPending).pending, Exec(ops + [Push(e)], maxPending).pending;
      exists i: nat :: NewestAt(t, i, e) && i < |es| && ClassOf(es[i]) == ClassOf(e) && t == es[i := e]
  {
    assert (ops + [Push(e)])[..|ops|] == ops;
    var es := Exec(ops, maxPending).pending;
    assert Exec(ops + [Push(e)], maxPending).pending == Pushed(es, maxPending, e).0;
    hide Exec, LastMatchBelow, NewestAt, Refused;
    LastMatchIsNewest(es, maxPending, e);
    assert IsCoalescible(e);
  }

  /** An important event costs a full queue the oldest event of any class, or none if
      everything that waits is important. */
  lemma PushEvicts(ops: seq<Op>, maxPending: int, e: Event)
    requires |Exec(ops, maxPending).pending| >= maxPending && ClassOf(e).None?
    ensures var es, t := Exec(ops, maxPending).pending, Exec(ops + [Push(e)], maxPending).pending;
      if forall x :: x in es ==> ClassOf(x).None? then t == es + [e]
      else
        exists i: nat :: i < |es| && ClassOf(es[i]).Some? && (forall x :: x in es[..i] ==> ClassOf(x).None?)
          && t == es[..i] + es[i + 1..] + [e]
  {
    assert (ops + [Push(e)])[..|ops|] == ops;
    var es := Exec(ops, maxPending).pending;
    assert Exec(ops + [Push(e)], maxPending).pending == Pushed(es, maxPending, e).0;
    hide Exec, LastMatchBelow, FirstVictim;
    FirstVictimFacts(es);
    var i := FirstVictim(es);
    if i < |es| {
      assert ClassOf(es[i]).Some? && es[i] in es;
    }
  }
}
