/** The client's window tables: which remote window each local one stands for, what
    the desktop and the server last said about minimizing it, and which one has the
    focus. */
module WindowTable {
  import opened Bytes

  type LocalId = nat

  /** A local window: the how-manieth the client created, and the id its events carry. */
  datatype Window = Window(serial: nat, id: LocalId)

  datatype Packet =
    | Map(wid: int)
    | Unmap(wid: int)
    | Focus(wid: int)
    | Close(wid: int)
    | Configured(wid: int)

  /** The client's fields, `delays` being whether it has the channel for delayed focus
      reports; then what is under way outside it: how many windows it has
      created, which of them it has destroyed, the timers that still have to fire,
      the packets sent, and the window the last focus packet named. */
  datatype State = State(
    windows: map<int, Window>,
    byLocal: map<LocalId, int>,
    iconified: map<int, bool>,
    serverIconic: map<int, bool>,
    focused: int,
    focusLosing: bool,
    delays: bool,
    created: nat,
    destroyed: seq<nat>,
    iconifyTimers: multiset<int>,
    focusTimers: nat,
    sent: seq<Packet>,
    reported: Option<nat>)

  const START := State(map[], map[], map[], map[], 0, false, true, 0, [], multiset{}, 0, [], None)

  /** What the run loop handles. NewWindow carries the id of the window the display
      made, if it could, and with Metadata the "iconic" key, if it is present;
      Configured carries whether the geometry differs and could be applied. */
  datatype Event =
    | NewWindow(wid: int, made: Option<LocalId>, iconic: Option<bool>, overrideRedirect: bool)
    | LostWindow(wid: int)
    | Metadata(wid: int, iconic: Option<bool>)
    | Minimized(id: LocalId, minimized: bool)
    | IconifyDue(wid: int)
    | FocusGained(id: LocalId)
    | FocusLost(id: LocalId)
    | FocusLostDue
    | CloseRequest(id: LocalId)
    | Configure(id: LocalId, differs: bool, resized: bool)

  // ---- the handlers, as functions ----------------------------------------------

  /** Nothing new was said about minimizing any window. */
  predicate SameIconic(s: State, t: State) {
    t.iconified == s.iconified && t.serverIconic == s.serverIconic
  }

  /** No window was created, destroyed or renamed. */
  predicate SameTables(s: State, t: State) {
    t.windows == s.windows && t.byLocal == s.byLocal && t.created == s.created && t.destroyed == s.destroyed
  }

  function Forgotten(s: State, wid: int): State
    requires wid in s.windows
  {
    var window := s.windows[wid];
    s.(byLocal := s.byLocal - {window.id},
       iconified := s.iconified - {wid},
       serverIconic := s.serverIconic - {wid},
       windows := s.windows - {wid},
       focused := if s.focused == wid then 0 else s.focused,
       destroyed := s.destroyed + [window.serial])
  }

  /** The stale window a reused id may still have is gone. */
  function WithoutStale(s: State, wid: int): State {
    if wid in s.windows then Forgotten(s, wid) else s
  }

  function WithStates(s: State, wid: int, iconic: Option<bool>): (t: State)
    ensures SameTables(s, t) && t.iconified == s.iconified
  {
    if iconic.Some? then s.(serverIconic := s.serverIconic[wid := iconic.value]) else s
  }

  function AfterNewWindow(s: State, wid: int, made: Option<LocalId>, iconic: Option<bool>, overrideRedirect: bool): State {
    var s1 := WithoutStale(s, wid);
    if made.None? then s1
    else
      WithStates(s1, wid, iconic).(
        created := s1.created + 1,
        windows := s1.windows[wid := Window(s1.created, made.value)],
        byLocal := s1.byLocal[made.value := wid],
        sent := if overrideRedirect then s1.sent else s1.sent + [Map(wid)])
  }

  function Resolved(s: State, id: LocalId): Option<int> {
    if id in s.byLocal && s.byLocal[id] in s.windows then Some(s.byLocal[id]) else None
  }

  predicate IsIconified(s: State, wid: int) {
    wid in s.iconified && s.iconified[wid]
  }

  predicate ServerAsked(s: State, wid: int, iconic: bool) {
    wid in s.serverIconic && s.serverIconic[wid] == iconic
  }

  function AfterMinimized(s: State, id: LocalId, minimized: bool): (t: State)
    ensures SameTables(s, t) && t.serverIconic == s.serverIconic
  {
    var wid := Resolved(s, id);
    if wid.None? || IsIconified(s, wid.value) == minimized then s
    else
      var s1 := s.(iconified := s.iconified[wid.value := minimized]);
      if ServerAsked(s, wid.value, minimized) then s1
      else if minimized then s1.(iconifyTimers := s.iconifyTimers + multiset{wid.value})
      else s1.(sent := s.sent + [Map(wid.value)])
  }

  function AfterIconifyDue(s: State, wid: int): (t: State)
    ensures SameTables(s, t) && SameIconic(s, t)
  {
    var s1 := s.(iconifyTimers := s.iconifyTimers - multiset{wid});
    if !IsIconified(s, wid) || ServerAsked(s, wid, true) then s1
    else s1.(sent := s.sent + [Unmap(wid)])
  }

  function AfterFocusGained(s: State, id: LocalId): (t: State)
    ensures SameTables(s, t) && SameIconic(s, t)
  {
    var wid := Resolved(s, id);
    if wid.None? || s.focused == wid.value then s
    else s.(focused := wid.value, sent := s.sent + [Focus(wid.value)], reported := Some(s.windows[wid.value].serial))
  }

  function AfterFocusLost(s: State, id: LocalId): (t: State)
    ensures SameTables(s, t) && SameIconic(s, t)
  {
    var wid := Resolved(s, id);
    if wid.None? || s.focused != wid.value then s
    else if s.focusLosing || !s.delays then s.(focused := 0)
    else s.(focused := 0, focusLosing := true, focusTimers := s.focusTimers + 1)
  }

  function AfterFocusLostDue(s: State): (t: State)
    requires s.focusTimers > 0
    ensures SameTables(s, t) && SameIconic(s, t)
  {
    var s1 := s.(focusTimers := s.focusTimers - 1, focusLosing := false);
    if s.focused != 0 then s1 else s1.(sent := s.sent + [Focus(0)], reported := None)
  }

  function AfterReport(s: State, id: LocalId, reported: bool, close: bool): (t: State)
    ensures SameTables(s, t) && SameIconic(s, t)
  {
    var wid := Resolved(s, id);
    if wid.None? || !reported then s
    else s.(sent := s.sent + [if close then Close(wid.value) else Configured(wid.value)])
  }

  /** A timer fires only if it was started, and the display gives a new window an id
      no living window has. */
  predicate Possible(s: State, e: Event) {
    && (e.NewWindow? && e.made.Some? ==> e.made.value !in WithoutStale(s, e.wid).byLocal)
    && (e.IconifyDue? ==> e.wid in s.iconifyTimers)
    && (e.FocusLostDue? ==> s.focusTimers > 0)
  }

  function Next(s: State, e: Event): State
    requires Possible(s, e)
  {
    match e
    case NewWindow(wid, made, iconic, overrideRedirect) => AfterNewWindow(s, wid, made, iconic, overrideRedirect)
    case LostWindow(wid) => WithoutStale(s, wid)
    case Metadata(wid, iconic) => if wid in s.windows then WithStates(s, wid, iconic) else s
    case Minimized(id, minimized) => AfterMinimized(s, id, minimized)
    case IconifyDue(wid) => AfterIconifyDue(s, wid)
    case FocusGained(id) => AfterFocusGained(s, id)
    case FocusLost(id) => AfterFocusLost(s, id)
    case FocusLostDue => AfterFocusLostDue(s)
    case CloseRequest(id) => AfterReport(s, id, true, true)
    case Configure(id, differs, resized) => AfterReport(s, id, differs && resized, false)
  }

  // ---- runs ---------------------------------------------------------------------

  /** The state a sequence of events leads to from the start; None if it cannot happen. */
  function After(es: seq<Event>): Option<State> {
    if es == [] then Some(START)
    else
      var before := After(es[..|es| - 1]);
      if before.Some? && Possible(before.value, es[|es| - 1]) then Some(Next(before.value, es[|es| - 1])) else None
  }

  lemma AfterSnoc(es: seq<Event>, e: Event)
    ensures var s := After(es);
      After(es + [e]) == if s.Some? && Possible(s.value, e) then Some(Next(s.value, e)) else None
  {
    hide Next, Possible;
    assert (es + [e])[..|es|] == es;
  }

  // ---- the tables stay inverse ------------------------------------------------------

  ghost predicate Inverse(s: State) {
    && (forall wid :: wid in s.windows ==> s.windows[wid].id in s.byLocal && s.byLocal[s.windows[wid].id] == wid)
    && (forall id :: id in s.byLocal ==> s.byLocal[id] in s.windows && s.windows[s.byLocal[id]].id == id)
  }

  ghost predicate Live(s: State, serial: nat) {
    exists wid :: wid in s.windows && s.windows[wid].serial == serial
  }

  /** Every window ever created is in the table under one id, or was destroyed once. */
  ghost predicate Accounted(s: State) {
    && (forall n: nat :: n < s.created <==> (n in s.destroyed || Live(s, n)))
    && (forall n: nat :: !(n in s.destroyed && Live(s, n)))
    && (forall a, b :: a in s.windows && b in s.windows && s.windows[a].serial == s.windows[b].serial ==> a == b)
    && (forall i, j :: 0 <= i < j < |s.destroyed| ==> s.destroyed[i] != s.destroyed[j])
  }

  /** The other tables name only living windows. */
  ghost predicate NamesLiving(s: State) {
    s.iconified.Keys <= s.windows.Keys && s.serverIconic.Keys <= s.windows.Keys && (s.focused != 0 ==> s.focused in s.windows)
  }

  lemma ForgottenInverse(s: State, wid: int)
    requires Inverse(s) && NamesLiving(s) && wid in s.windows
    ensures Inverse(Forgotten(s, wid)) && NamesLiving(Forgotten(s, wid))
  {
  }

  lemma CreatedInverse(s: State, t: State, wid: int, id: LocalId)
    requires Inverse(s) && wid !in s.windows && id !in s.byLocal
    requires t.windows == s.windows[wid := Window(s.created, id)] && t.byLocal == s.byLocal[id := wid]
    ensures Inverse(t)
  {
  }

  /** Only creating and destroying windows touches the tables. */
  lemma TablesKept(s: State, e: Event)
    requires Possible(s, e) && !e.NewWindow? && !e.LostWindow?
    ensures SameTables(s, Next(s, e))
  {
    hide SameTables, AfterNewWindow, WithoutStale, WithStates, AfterMinimized, AfterIconifyDue, AfterFocusGained, AfterFocusLost, AfterFocusLostDue, AfterReport;
    assert SameTables(s, s) by { Same(s); }
  }

  lemma Same(s: State)
    ensures SameTables(s, s)
  {
  }

  lemma InverseStep(s: State, e: Event)
    requires Inverse(s) && NamesLiving(s) && Possible(s, e)
    ensures Inverse(Next(s, e))
  {
    hide NamesLiving, Forgotten;
    if e.NewWindow? || e.LostWindow? {
      hide Inverse;
      if e.wid in s.windows {
        ForgottenInverse(s, e.wid);
        assert e.wid !in Forgotten(s, e.wid).windows by { ForgottenIsGone(s, e.wid); }
      }
      if e.NewWindow? && e.made.Some? {
        CreatedInverse(WithoutStale(s, e.wid), Next(s, e), e.wid, e.made.value);
      }
    } else {
      TablesKept(s, e);
      hide Next, Possible;
    }
  }

  lemma ForgottenIsGone(s: State, wid: int)
    requires wid in s.windows
    ensures wid !in Forgotten(s, wid).windows && wid !in Forgotten(s, wid).iconified && wid !in Forgotten(s, wid).serverIconic
  {
  }

  lemma NamesLivingStep(s: State, e: Event)
    requires NamesLiving(s) && Possible(s, e)
    ensures NamesLiving(Next(s, e))
  {
    if e.NewWindow? || e.LostWindow? {
      assert NamesLiving(WithoutStale(s, e.wid));
    }
  }

  lemma ForgottenAccounted(s: State, wid: int)
    requires Accounted(s) && wid in s.windows
    ensures Accounted(Forgotten(s, wid))
  {
    var t := Forgotten(s, wid);
    var gone := s.windows[wid].serial;
    assert Live(s, gone);
    forall n: nat ensures n in t.destroyed <==> n in s.destroyed || n == gone {
      assert t.destroyed == s.destroyed + [gone];
    }
    forall n: nat ensures Live(t, n) <==> Live(s, n) && n != gone {
      if Live(s, n) && n != gone {
        var w :| w in s.windows && s.windows[w].serial == n;
        assert w in t.windows && t.windows[w].serial == n;
      }
    }
  }

  lemma CreatedAccounted(s: State, t: State, wid: int, id: LocalId)
    requires Accounted(s) && wid !in s.windows
    requires t.created == s.created + 1 && t.destroyed == s.destroyed
    requires t.windows == s.windows[wid := Window(s.created, id)]
    ensures Accounted(t)
  {
    forall n: nat ensures Live(t, n) <==> Live(s, n) || n == s.created {
      if Live(s, n) {
        var w :| w in s.windows && s.windows[w].serial == n;
        assert w in t.windows && t.windows[w].serial == n;
      }
      if n == s.created {
        assert wid in t.windows && t.windows[wid].serial == n;
      }
    }
    forall a, b | a in t.windows && b in t.windows && t.windows[a].serial == t.windows[b].serial ensures a == b {
      if a in s.windows {
        assert Live(s, s.windows[a].serial);
      }
      if b in s.windows {
        assert Live(s, s.windows[b].serial);
      }
    }
  }

  lemma AccountedStep(s: State, e: Event)
    requires Accounted(s) && Possible(s, e)
    ensures Accounted(Next(s, e))
  {
    hide Accounted, Forgotten;
    if e.NewWindow? || e.LostWindow? {
      if e.wid in s.windows {
        ForgottenAccounted(s, e.wid);
        ForgottenIsGone(s, e.wid);
      }
      if e.NewWindow? && e.made.Some? {
        CreatedAccounted(WithoutStale(s, e.wid), Next(s, e), e.wid, e.made.value);
      }
    } else {
      TablesKept(s, e);
      hide Next, Possible;
      SameAccounted(s, Next(s, e));
    }
  }

  lemma SameAccounted(s: State, t: State)
    requires Accounted(s) && SameTables(s, t)
    ensures Accounted(t)
  {
    forall n: nat ensures Live(t, n) <==> Live(s, n) {
    }
  }

  /** In every reachable state the two tables are inverse to each other, every window
      that was created is in them or was destroyed, once, and the other tables name
      only windows in them. */
  lemma {:induction false} EveryRun(es: seq<Event>)
    requires After(es).Some?
    ensures var s := After(es).value;
      Inverse(s) && Accounted(s) && NamesLiving(s)
  {
    hide Next;
    if es == [] {
    } else {
      EveryRun(es[..|es| - 1]);
      var s := After(es[..|es| - 1]).value;
      InverseStep(s, es[|es| - 1]);
      AccountedStep(s, es[|es| - 1]);
      NamesLivingStep(s, es[|es| - 1]);
    }
  }

  // ---- minimizing ----------------------------------------------------------------------

  /** What the desktop last said about the window that now has a local id: whether it
      is minimized. */
  function DesktopSays(es: seq<Event>, id: LocalId): bool {
    if es == [] then false
    else
      var e := es[|es| - 1];
      if e.Minimized? && e.id == id then e.minimized
      else if e.NewWindow? && e.made == Some(id) then false
      else DesktopSays(es[..|es| - 1], id)
  }

  /** What the server last said about the window that now has an id, if it did. */
  function ServerSays(es: seq<Event>, wid: int): Option<bool> {
    if es == [] then None
    else
      var e := es[|es| - 1];
      if e.Metadata? && e.wid == wid && e.iconic.Some? then e.iconic
      else if e.NewWindow? && e.wid == wid && e.made.Some? then e.iconic
      else ServerSays(es[..|es| - 1], wid)
  }

  function Asked(s: State, wid: int): Option<bool> {
    if wid in s.serverIconic then Some(s.serverIconic[wid]) else None
  }

  predicate Creates(e: Event, wid: int, id: LocalId) {
    e.NewWindow? && e.wid == wid && e.made == Some(id)
  }

  /** A living window was just created, or lived before the event. */
  lemma LivedOn(s: State, e: Event, wid: int)
    requires Inverse(s) && Possible(s, e) && wid in Next(s, e).windows
    ensures var w := Next(s, e).windows[wid];
      if e.NewWindow? && (e.made == Some(w.id) || (e.wid == wid && e.made.Some?)) then Creates(e, wid, w.id)
      else wid in s.windows && s.windows[wid] == w
  {
    if e.NewWindow? || e.LostWindow? {
      hide AfterMinimized, AfterIconifyDue, AfterFocusGained, AfterFocusLost, AfterFocusLostDue, AfterReport;
    } else {
      TablesKept(s, e);
      hide Next;
    }
  }

  lemma CreationIconified(s: State, e: Event, wid: int)
    requires NamesLiving(s) && Possible(s, e) && (e.NewWindow? || e.LostWindow?) && wid in Next(s, e).windows
    ensures IsIconified(Next(s, e), wid)
         == if Creates(e, wid, Next(s, e).windows[wid].id) then false else IsIconified(s, wid)
  {
    hide AfterMinimized, AfterIconifyDue, AfterFocusGained, AfterFocusLost, AfterFocusLostDue, AfterReport;
  }

  lemma MinimizedIconified(s: State, id: LocalId, minimized: bool, wid: int)
    requires Inverse(s) && wid in s.windows
    ensures IsIconified(AfterMinimized(s, id, minimized), wid)
         == if id == s.windows[wid].id then minimized else IsIconified(s, wid)
  {
  }

  lemma OthersIconified(s: State, e: Event)
    requires Possible(s, e) && !e.NewWindow? && !e.LostWindow? && !e.Minimized?
    ensures Next(s, e).iconified == s.iconified
  {
    hide AfterNewWindow, WithoutStale, AfterMinimized, AfterIconifyDue, AfterFocusGained, AfterFocusLost, AfterFocusLostDue, AfterReport;
  }

  /** What the desktop said of the windows that live after an event. */
  lemma IconifiedStep(s: State, e: Event, wid: int)
    requires Inverse(s) && NamesLiving(s) && Possible(s, e) && wid in Next(s, e).windows
    ensures var t := Next(s, e);
      IsIconified(t, wid) ==
        if e.Minimized? && e.id == t.windows[wid].id then e.minimized
        else if Creates(e, wid, t.windows[wid].id) then false
        else IsIconified(s, wid)
  {
    hide Next, Possible, Inverse, NamesLiving, AfterMinimized;
    if e.NewWindow? || e.LostWindow? {
      CreationIconified(s, e, wid);
    } else {
      TablesKept(s, e);
      if e.Minimized? {
        NextMinimized(s, e);
        MinimizedIconified(s, e.id, e.minimized, wid);
      } else {
        OthersIconified(s, e);
      }
    }
  }

  lemma NextMinimized(s: State, e: Event)
    requires Possible(s, e) && e.Minimized?
    ensures Next(s, e) == AfterMinimized(s, e.id, e.minimized)
  {
    hide AfterMinimized;
  }

  /** What the server said of the windows that live after an event. */
  lemma AskedStep(s: State, e: Event, wid: int)
    requires NamesLiving(s) && Possible(s, e) && wid in Next(s, e).windows
    ensures var t := Next(s, e);
      Asked(t, wid) ==
        if e.Metadata? && e.wid == wid && e.iconic.Some? then e.iconic
        else if e.NewWindow? && e.wid == wid && e.made.Some? then e.iconic
        else Asked(s, wid)
  {
    hide AfterIconifyDue, AfterFocusGained, AfterFocusLost, AfterFocusLostDue, AfterReport, AfterMinimized;
  }

  /** What the client holds about a living window is what was last said about it. */
  lemma {:induction false} HeldIsSaid(es: seq<Event>, wid: int)
    requires After(es).Some? && wid in After(es).value.windows
    ensures var s := After(es).value;
      IsIconified(s, wid) == DesktopSays(es, s.windows[wid].id) && Asked(s, wid) == ServerSays(es, wid)
  {
    hide Next, Possible, Inverse, NamesLiving;
    if es == [] {
    } else {
      var before := es[..|es| - 1];
      var s := After(before).value;
      EveryRun(before);
      LivedOn(s, es[|es| - 1], wid);
      IconifiedStep(s, es[|es| - 1], wid);
      AskedStep(s, es[|es| - 1], wid);
      if wid in s.windows {
        HeldIsSaid(before, wid);
      }
    }
  }

  /** The remote id of the living window a local id belongs to, by the windows alone. */
  ghost predicate Names(s: State, id: LocalId, wid: int) {
    wid in s.windows && s.windows[wid].id == id
  }

  /** An event for a local window finds the remote window it belongs to. */
  lemma ResolvedExact(s: State, id: LocalId, wid: int)
    requires Inverse(s)
    ensures Resolved(s, id) == Some(wid) <==> Names(s, id, wid)
  {
  }

  /** A delayed report is sent if and only if its window lives and was last said to be
      minimized, by the desktop, and the server did not ask for that itself. */
  lemma UnmapExact(es: seq<Event>, wid: int)
    requires After(es + [IconifyDue(wid)]).Some?
    ensures After(es).Some?
    ensures var s := After(es).value;
      After(es + [IconifyDue(wid)]).value.sent
      == if wid in s.windows && DesktopSays(es, s.windows[wid].id) && ServerSays(es, wid) != Some(true)
         then s.sent + [Unmap(wid)] else s.sent
    ensures After(es + [IconifyDue(wid)]).value.iconifyTimers == After(es).value.iconifyTimers - multiset{wid}
  {
    hide Inverse, Accounted, DesktopSays, ServerSays;
    assert (es + [IconifyDue(wid)])[..|es|] == es;
    var s := After(es).value;
    EveryRun(es);
    if wid in s.windows {
      HeldIsSaid(es, wid);
    }
  }

  /** A restored window is mapped again if and only if it was known to be minimized
      and the server did not ask for the restoring itself. */
  lemma RestoreExact(es: seq<Event>, id: LocalId, wid: int)
    requires After(es).Some? && Names(After(es).value, id, wid)
    ensures var s := After(es).value;
      && After(es + [Minimized(id, false)]).Some?
      && After(es + [Minimized(id, false)]).value.sent
         == if DesktopSays(es, id) && ServerSays(es, wid) != Some(false) then s.sent + [Map(wid)] else s.sent
  {
    hide Inverse, Accounted, DesktopSays, ServerSays;
    assert (es + [Minimized(id, false)])[..|es|] == es;
    EveryRun(es);
    ResolvedExact(After(es).value, id, wid);
    HeldIsSaid(es, wid);
  }

  /** A new window is mapped unless it is override-redirect, gets a number of its own,
      and the window that had its id is destroyed. */
  lemma CreatedExact(es: seq<Event>, wid: int, id: LocalId, iconic: Option<bool>, overrideRedirect: bool)
    requires After(es + [NewWindow(wid, Some(id), iconic, overrideRedirect)]).Some?
    ensures After(es).Some?
    ensures var s := After(es).value;
      var t := After(es + [NewWindow(wid, Some(id), iconic, overrideRedirect)]).value;
      && Names(t, id, wid) && !Live(s, t.windows[wid].serial) && t.windows[wid].serial !in s.destroyed
      && t.sent == (if overrideRedirect then s.sent else s.sent + [Map(wid)])
      && (wid in s.windows ==> s.windows[wid].serial in t.destroyed)
  {
    hide Inverse;
    assert (es + [NewWindow(wid, Some(id), iconic, overrideRedirect)])[..|es|] == es;
    EveryRun(es);
    var s := After(es).value;
    assert s.created !in s.destroyed && !Live(s, s.created);
  }

  predicate ForLocal(e: Event, id: LocalId) {
    match e
    case Minimized(i, _) => i == id
    case FocusGained(i) => i == id
    case FocusLost(i) => i == id
    case CloseRequest(i) => i == id
    case Configure(i, _, _) => i == id
    case _ => false
  }

  /** Events for local windows that live no more change nothing. */
  lemma StrayEvent(es: seq<Event>, e: Event, id: LocalId)
    requires After(es).Some? && ForLocal(e, id) && forall wid :: !Names(After(es).value, id, wid)
    ensures After(es + [e]) == After(es)
  {
    hide After, Inverse, Accounted, NamesLiving, AfterNewWindow, WithoutStale;
    AfterSnoc(es, e);
    var s := After(es).value;
    EveryRun(es);
    if Resolved(s, id).Some? {
      ResolvedExact(s, id, Resolved(s, id).value);
    }
  }

  /** A request to close a window is passed on under its remote id. */
  lemma CloseExact(es: seq<Event>, id: LocalId, wid: int)
    requires After(es).Some? && Names(After(es).value, id, wid)
    ensures var s := After(es).value;
      After(es + [CloseRequest(id)]) == Some(s.(sent := s.sent + [Close(wid)]))
  {
    hide After, Inverse, Accounted, NamesLiving, Resolved;
    AfterSnoc(es, CloseRequest(id));
    EveryRun(es);
    ResolvedExact(After(es).value, id, wid);
  }

  /** So is a change of geometry, if there is one and it could be applied. */
  lemma ConfigureExact(es: seq<Event>, id: LocalId, wid: int, differs: bool, resized: bool)
    requires After(es).Some? && Names(After(es).value, id, wid)
    ensures var s := After(es).value;
      After(es + [Configure(id, differs, resized)])
      == Some(if differs && resized then s.(sent := s.sent + [Configured(wid)]) else s)
  {
    hide After, Inverse, Accounted, NamesLiving, Resolved;
    AfterSnoc(es, Configure(id, differs, resized));
    EveryRun(es);
    ResolvedExact(After(es).value, id, wid);
  }

  // ---- focus -----------------------------------------------------------------------------

  /** The windows the server was told have the focus, in order; 0 is none. */
  function FocusReports(sent: seq<Packet>): seq<int> {
    if sent == [] then []
    else
      var p := sent[|sent| - 1];
      FocusReports(sent[..|sent| - 1]) + (if p.Focus? then [p.wid] else [])
  }

  lemma FocusReportsSnoc(sent: seq<Packet>, p: Packet)
    ensures FocusReports(sent + [p]) == FocusReports(sent) + (if p.Focus? then [p.wid] else [])
  {
    assert (sent + [p])[..|sent|] == sent;
  }

  /** What the server believes: at first, no window has the focus. */
  function Believed(reports: seq<int>): int {
    if reports == [] then 0 else reports[|reports| - 1]
  }

  /** "No focus" is never reported when it was the last thing reported. */
  ghost predicate NoRepeatedLoss(reports: seq<int>) {
    forall i :: 0 <= i < |reports| && reports[i] == 0 ==> i > 0 && reports[i - 1] != 0
  }

  ghost predicate FocusSound(s: State) {
    var believed := Believed(FocusReports(s.sent));
    && s.delays && NoRepeatedLoss(FocusReports(s.sent))
    && s.focusTimers == (if s.focusLosing then 1 else 0)
    && (believed == 0 <==> s.reported.None?)
    && (believed == 0 ==> s.focused == 0 && !s.focusLosing)
    && (s.focused != 0 ==> believed == s.focused && s.focused in s.windows && s.reported == Some(s.windows[s.focused].serial))
    && (s.focused == 0 && !s.focusLosing && believed != 0 ==> s.reported.value in s.destroyed)
  }

  lemma ForgottenFocus(s: State, wid: int)
    requires FocusSound(s) && wid in s.windows
    ensures FocusSound(Forgotten(s, wid))
  {
    hide FocusReports;
  }

  /** Packets that are not about focus change nothing. */
  lemma OtherPacket(s: State, t: State, p: Packet)
    requires FocusSound(s) && !p.Focus? && t.sent == s.sent + [p] && t.delays == s.delays
    requires t.focused == s.focused && t.focusLosing == s.focusLosing && t.focusTimers == s.focusTimers && t.reported == s.reported
    requires SameTables(s, t)
    ensures FocusSound(t)
  {
    hide FocusReports;
    FocusReportsSnoc(s.sent, p);
    assert FocusReports(t.sent) == FocusReports(s.sent);
  }

  lemma GainedSound(s: State, id: LocalId)
    requires FocusSound(s) && 0 !in s.windows
    ensures FocusSound(AfterFocusGained(s, id))
  {
    hide FocusReports;
    if Resolved(s, id).Some? {
      FocusReportsSnoc(s.sent, Focus(Resolved(s, id).value));
    }
  }

  lemma DueSound(s: State)
    requires FocusSound(s) && s.focusTimers > 0
    ensures FocusSound(AfterFocusLostDue(s))
  {
    hide FocusReports;
    FocusReportsSnoc(s.sent, Focus(0));
  }

  lemma LostSound(s: State, id: LocalId)
    requires FocusSound(s) && 0 !in s.windows
    ensures FocusSound(AfterFocusLost(s, id))
  {
    hide FocusReports;
  }

  lemma FocusStep(s: State, e: Event)
    requires FocusSound(s) && Possible(s, e) && 0 !in s.windows
    ensures FocusSound(Next(s, e))
  {
    hide FocusReports, FocusSound;
    if e.NewWindow? || e.LostWindow? {
      WindowEventFocus(s, e);
    } else if e.FocusGained? {
      GainedSound(s, e.id);
    } else if e.FocusLost? {
      LostSound(s, e.id);
    } else if e.FocusLostDue? {
      DueSound(s);
    } else {
      OtherEventFocus(s, e);
    }
  }

  lemma WindowEventFocus(s: State, e: Event)
    requires FocusSound(s) && Possible(s, e) && (e.NewWindow? || e.LostWindow?)
    ensures FocusSound(Next(s, e))
  {
    hide FocusReports, FocusSound, Forgotten, AfterMinimized, AfterIconifyDue, AfterFocusGained, AfterFocusLost, AfterFocusLostDue, AfterReport;
    if e.wid in s.windows {
      ForgottenFocus(s, e.wid);
      ForgottenIsGone(s, e.wid);
    }
    if e.NewWindow? && e.made.Some? {
      CreatedFocus(WithoutStale(s, e.wid), e.wid, e.made.value, e.iconic, e.overrideRedirect);
    }
  }

  lemma CreatedFocus(s: State, wid: int, id: LocalId, iconic: Option<bool>, overrideRedirect: bool)
    requires FocusSound(s) && wid !in s.windows
    ensures FocusSound(AfterNewWindow(s, wid, Some(id), iconic, overrideRedirect))
  {
    hide FocusReports;
    FocusReportsSnoc(s.sent, Map(wid));
  }

  lemma OtherEventFocus(s: State, e: Event)
    requires FocusSound(s) && Possible(s, e)
    requires e.Metadata? || e.Minimized? || e.IconifyDue? || e.CloseRequest? || e.Configure?
    ensures FocusSound(Next(s, e))
  {
    hide FocusReports, FocusSound, AfterNewWindow, WithoutStale, AfterFocusGained, AfterFocusLost, AfterFocusLostDue;
    var t := Next(s, e);
    if |t.sent| > |s.sent| {
      assert t.sent == s.sent + [t.sent[|s.sent|]];
      assert !t.sent[|s.sent|].Focus?;
      OtherPacket(s, t, t.sent[|s.sent|]);
    } else {
      SameFocus(s, t);
    }
  }

  lemma SameFocus(s: State, t: State)
    requires FocusSound(s) && SameTables(s, t) && t.sent == s.sent && t.reported == s.reported && t.delays == s.delays
    requires t.focused == s.focused && t.focusLosing == s.focusLosing && t.focusTimers == s.focusTimers
    ensures FocusSound(t)
  {
    hide FocusReports;
  }

  /** Every window the run creates has one of these ids. */
  ghost predicate CreatesOnly(es: seq<Event>, ids: iset<int>) {
    forall i :: 0 <= i < |es| && es[i].NewWindow? ==> es[i].wid in ids
  }

  lemma NoZeroStep(s: State, e: Event)
    requires 0 !in s.windows && Possible(s, e) && (e.NewWindow? ==> e.wid != 0)
    ensures 0 !in Next(s, e).windows
  {
    if e.NewWindow? || e.LostWindow? {
      hide AfterMinimized, AfterIconifyDue, AfterFocusGained, AfterFocusLost, AfterFocusLostDue, AfterReport;
    } else {
      TablesKept(s, e);
      hide Next;
    }
  }

  /** At most one report of a lost focus is on its way, "no focus" is never reported
      twice in a row, and once no report is on its way the server believes what the
      client holds, unless the window it believes focused was destroyed. */
  lemma {:induction false} FocusRun(es: seq<Event>, ids: iset<int>)
    requires After(es).Some? && CreatesOnly(es, ids) && 0 !in ids
    ensures FocusSound(After(es).value) && 0 !in After(es).value.windows
  {
    hide Next, Possible, FocusSound;
    if es != [] {
      FocusRun(es[..|es| - 1], ids);
      FocusStep(After(es[..|es| - 1]).value, es[|es| - 1]);
      NoZeroStep(After(es[..|es| - 1]).value, es[|es| - 1]);
    } else {
      assert FocusSound(START) by { StartSound(); }
    }
  }

  lemma StartSound()
    ensures FocusSound(START)
  {
  }

  /** What goes wrong with a window whose id is 0: losing a focus it never had is
      reported, each time. */
  const ZERO_RUN: seq<Event> := [NewWindow(0, Some(1), None, false), FocusLost(1), FocusLostDue]

  const ZERO_WINDOW: State :=
    START.(created := 1, windows := map[0 := Window(0, 1)], byLocal := map[1 := 0], sent := [Map(0)])

  lemma ZeroCreated()
    ensures Possible(START, ZERO_RUN[0]) && Next(START, ZERO_RUN[0]) == ZERO_WINDOW
  {
    hide AfterMinimized, AfterIconifyDue, AfterFocusGained, AfterFocusLost, AfterFocusLostDue, AfterReport;
    var t := Next(START, ZERO_RUN[0]);
    assert t.windows == ZERO_WINDOW.windows && t.byLocal == ZERO_WINDOW.byLocal && t.sent == ZERO_WINDOW.sent;
  }

  lemma ZeroLost()
    ensures Possible(ZERO_WINDOW, ZERO_RUN[1])
    ensures Next(ZERO_WINDOW, ZERO_RUN[1]) == ZERO_WINDOW.(focusLosing := true, focusTimers := 1)
  {
    hide AfterNewWindow, WithoutStale, AfterMinimized, AfterIconifyDue, AfterFocusGained, AfterFocusLostDue, AfterReport;
  }

  lemma ZeroReported()
    ensures var s := ZERO_WINDOW.(focusLosing := true, focusTimers := 1);
      Possible(s, ZERO_RUN[2]) && Next(s, ZERO_RUN[2]).sent == [Map(0), Focus(0)]
  {
    hide AfterNewWindow, WithoutStale, AfterMinimized, AfterIconifyDue, AfterFocusGained, AfterFocusLost, AfterReport;
  }

  lemma ZeroRun()
    ensures After(ZERO_RUN).Some? && After(ZERO_RUN).value.sent == [Map(0), Focus(0)]
  {
    hide After, Next, Possible;
    var e1, e2, e3 := ZERO_RUN[0], ZERO_RUN[1], ZERO_RUN[2];
    assert After([]) == Some(START) by { Nothing(); }
    assert [] + [e1] == [e1] && [e1] + [e2] == [e1, e2] && [e1, e2] + [e3] == ZERO_RUN;
    AfterSnoc([], e1);
    AfterSnoc([e1], e2);
    AfterSnoc([e1, e2], e3);
    ZeroCreated();
    ZeroLost();
    ZeroReported();
  }

  lemma Nothing()
    ensures After([]) == Some(START)
  {
  }

  /** The focus is reported soundly in all runs that create only windows with these
      ids, if and only if 0 is none of them. */
  lemma FocusExact(ids: iset<int>)
    ensures (forall es :: After(es).Some? && CreatesOnly(es, ids) ==> FocusSound(After(es).value)) <==> 0 !in ids
  {
    if 0 in ids {
      ZeroRun();
      var sent := [Map(0), Focus(0)];
      assert sent[..1] == [Map(0)] && sent[..1][..0] == [];
      assert FocusReports(sent) == [0];
      assert CreatesOnly(ZERO_RUN, ids) && !FocusSound(After(ZERO_RUN).value);
    } else {
      forall es | After(es).Some? && CreatesOnly(es, ids) ensures FocusSound(After(es).value) {
        FocusRun(es, ids);
      }
    }
  }

  // ---- what the events say ---------------------------------------------------------------

  /** The remote window a local id belongs to, by the events alone: the last one made
      under that id, unless it was lost or made anew since. */
  function Owner(es: seq<Event>, id: LocalId): Option<int> {
    if es == [] then None
    else
      var e, before := es[|es| - 1], Owner(es[..|es| - 1], id);
      if e.NewWindow? && e.made == Some(id) then Some(e.wid)
      else if (e.NewWindow? || e.LostWindow?) && before == Some(e.wid) then None
      else before
  }

  lemma ResolvedStep(s: State, e: Event, id: LocalId)
    requires Inverse(s) && NamesLiving(s) && Possible(s, e)
    ensures Resolved(Next(s, e), id) ==
      if e.NewWindow? && e.made == Some(id) then Some(e.wid)
      else if (e.NewWindow? || e.LostWindow?) && Resolved(s, id) == Some(e.wid) then None
      else Resolved(s, id)
  {
    if e.NewWindow? || e.LostWindow? {
      hide AfterMinimized, AfterIconifyDue, AfterFocusGained, AfterFocusLost, AfterFocusLostDue, AfterReport;
    } else {
      TablesKept(s, e);
      hide Next;
    }
  }

  /** In every reachable state the tables find the window an id belongs to by the events. */
  lemma {:induction false} ResolvedIsSaid(es: seq<Event>, id: LocalId)
    requires After(es).Some?
    ensures Resolved(After(es).value, id) == Owner(es, id)
  {
    hide Next, Possible, Inverse, NamesLiving, Accounted, Resolved;
    if es == [] {
      assert Resolved(START, id) == None by { NothingResolved(id); }
    } else {
      var before := es[..|es| - 1];
      EveryRun(before);
      ResolvedStep(After(before).value, es[|es| - 1], id);
      ResolvedIsSaid(before, id);
    }
  }

  lemma NothingResolved(id: LocalId)
    ensures Resolved(START, id) == None
  {
  }

  /** The window that has the focus, by the events alone; 0 is none. */
  function FocusSays(es: seq<Event>): int {
    if es == [] then 0
    else
      var front, e := es[..|es| - 1], es[|es| - 1];
      var before := FocusSays(front);
      if e.FocusGained? && Owner(front, e.id).Some? then Owner(front, e.id).value
      else if e.FocusLost? && Owner(front, e.id) == Some(before) then 0
      else if (e.NewWindow? || e.LostWindow?) && e.wid == before then 0
      else before
  }

  lemma FocusedStep(s: State, e: Event)
    requires Inverse(s) && NamesLiving(s) && Possible(s, e)
    ensures Next(s, e).focused ==
      if e.FocusGained? && Resolved(s, e.id).Some? then Resolved(s, e.id).value
      else if e.FocusLost? && Resolved(s, e.id) == Some(s.focused) then 0
      else if (e.NewWindow? || e.LostWindow?) && e.wid == s.focused then 0
      else s.focused
  {
    hide Inverse, Resolved, AfterMinimized, AfterIconifyDue, AfterReport;
    if e.NewWindow? || e.LostWindow? {
      hide AfterFocusGained, AfterFocusLost, AfterFocusLostDue;
    } else if e.FocusGained? {
      hide AfterNewWindow, WithoutStale, AfterFocusLost, AfterFocusLostDue;
    } else if e.FocusLost? {
      hide AfterNewWindow, WithoutStale, AfterFocusGained, AfterFocusLostDue;
    } else {
      FocusKept(s, e);
    }
  }

  /** Only gaining and losing the focus, and creating and destroying windows, touches it. */
  lemma FocusKept(s: State, e: Event)
    requires Possible(s, e) && !e.NewWindow? && !e.LostWindow? && !e.FocusGained? && !e.FocusLost?
    ensures Next(s, e).focused == s.focused
  {
    hide Resolved, AfterNewWindow, WithoutStale, AfterFocusGained, AfterFocusLost;
  }

  /** In every reachable state the client holds the focus the events last said. */
  lemma {:induction false} FocusIsSaid(es: seq<Event>)
    requires After(es).Some?
    ensures After(es).value.focused == FocusSays(es)
  {
    hide Next, Possible, Inverse, NamesLiving, Accounted, Owner;
    if es == [] {
    } else {
      var before, e := es[..|es| - 1], es[|es| - 1];
      EveryRun(before);
      FocusIsSaid(before);
      FocusedStep(After(before).value, e);
      if e.FocusGained? || e.FocusLost? {
        ResolvedIsSaid(before, e.id);
      }
    }
  }

  /** The server is told of a window that gains the focus if and only if another one had
      it. */
  lemma GainReported(es: seq<Event>, id: LocalId, wid: int)
    requires After(es).Some? && Owner(es, id) == Some(wid)
    ensures After(es + [FocusGained(id)]).Some?
    ensures var s, t := After(es).value, After(es + [FocusGained(id)]).value;
      && t.sent == (if FocusSays(es) != wid then s.sent + [Focus(wid)] else s.sent)
      && t.focused == wid && t.focusTimers == s.focusTimers
  {
    hide After, Owner, FocusSays, Resolved;
    AfterSnoc(es, FocusGained(id));
    ResolvedIsSaid(es, id);
    FocusIsSaid(es);
  }

  /** And then the server believes that this window has it, whatever was on its way. */
  lemma GainBelieved(es: seq<Event>, id: LocalId, wid: int, ids: iset<int>)
    requires After(es).Some? && Owner(es, id) == Some(wid)
    requires CreatesOnly(es, ids) && 0 !in ids
    ensures After(es + [FocusGained(id)]).Some?
    ensures Believed(FocusReports(After(es + [FocusGained(id)]).value.sent)) == wid
  {
    hide After, Owner, FocusReports, Next;
    GainReported(es, id, wid);
    FocusRun(es, ids);
    ResolvedIsSaid(es, id);
    assert wid != 0;
    FocusRun(es + [FocusGained(id)], ids);
  }

  /** Losing the focus starts a delayed report if the window had it and none is on its
      way, and tells the server nothing yet. */
  lemma LossDelayed(es: seq<Event>, id: LocalId)
    requires After(es).Some?
    ensures After(es + [FocusLost(id)]).Some?
    ensures var s, t := After(es).value, After(es + [FocusLost(id)]).value;
      && t.sent == s.sent
      && t.focusTimers == s.focusTimers + (if Owner(es, id) == Some(FocusSays(es)) && !s.focusLosing then 1 else 0)
  {
    hide After, Owner, FocusSays, Resolved;
    AfterSnoc(es, FocusLost(id));
    ResolvedIsSaid(es, id);
    FocusIsSaid(es);
    DelaysRun(es);
  }

  lemma {:induction false} DelaysRun(es: seq<Event>)
    requires After(es).Some?
    ensures After(es).value.delays
  {
    hide Next, Possible;
    if es == [] {
    } else {
      DelaysRun(es[..|es| - 1]);
      DelaysStep(After(es[..|es| - 1]).value, es[|es| - 1]);
    }
  }

  lemma DelaysStep(s: State, e: Event)
    requires Possible(s, e)
    ensures Next(s, e).delays == s.delays
  {
  }

  /** The delayed report says that no window has the focus, if that is so by then, and is
      not sent otherwise. */
  lemma LossReported(es: seq<Event>)
    requires After(es + [FocusLostDue]).Some?
    ensures After(es).Some?
    ensures var s, t := After(es).value, After(es + [FocusLostDue]).value;
      && t.sent == (if FocusSays(es) == 0 then s.sent + [Focus(0)] else s.sent)
      && t.focusTimers == s.focusTimers - 1 && !t.focusLosing
  {
    hide After, FocusSays;
    AfterSnoc(es, FocusLostDue);
    FocusIsSaid(es);
  }

  /** A window the desktop minimizes gets a delayed report, if it was not minimized and
      the server did not ask for it; nothing is sent yet. */
  lemma MinimizeExact(es: seq<Event>, id: LocalId, wid: int)
    requires After(es).Some? && Names(After(es).value, id, wid)
    ensures After(es + [Minimized(id, true)]).Some?
    ensures var s, t := After(es).value, After(es + [Minimized(id, true)]).value;
      && t.sent == s.sent
      && t.iconifyTimers == s.iconifyTimers
         + if !DesktopSays(es, id) && ServerSays(es, wid) != Some(true) then multiset{wid} else multiset{}
  {
    hide After, Inverse, Accounted, NamesLiving, DesktopSays, ServerSays;
    AfterSnoc(es, Minimized(id, true));
    EveryRun(es);
    ResolvedExact(After(es).value, id, wid);
    HeldIsSaid(es, wid);
  }

  // ---- the client object ---------------------------------------------------------------

  class Client {
    var windows: map<int, Window>
    var byLocal: map<LocalId, int>
    var iconified: map<int, bool>
    var serverIconic: map<int, bool>
    var focused: int
    var focusLosing: bool
    const delays: bool
    // What is under way outside the client.
    var created: nat
    var destroyed: seq<nat>
    var iconifyTimers: multiset<int>
    var focusTimers: nat
    var sent: seq<Packet>
    ghost var reported: Option<nat>

    /** delays says whether there is a channel for the reports of a lost focus. */
    constructor (delays: bool)
      ensures View() == START.(delays := delays)
    {
      this.delays := delays;
      windows, byLocal, iconified, serverIconic := map[], map[], map[], map[];
      focused, focusLosing := 0, false;
      created, destroyed, iconifyTimers, focusTimers, sent, reported := 0, [], multiset{}, 0, [], None;
    }

    ghost function View(): State
      reads this
    {
      State(windows, byLocal, iconified, serverIconic, focused, focusLosing, delays,
            created, destroyed, iconifyTimers, focusTimers, sent, reported)
    }

    method ForgetWindow(wid: int, window: Window)
      requires wid in windows && windows[wid] == window
      modifies this
      ensures View() == Forgotten(old(View()), wid)
    {
      byLocal := byLocal - {window.id};
      iconified := iconified - {wid};
      serverIconic := serverIconic - {wid};
      windows := windows - {wid};
      if focused == wid {
        focused := 0;
      }
      destroyed := destroyed + [window.serial];
    }

    method ApplyStates(wid: int, iconic: Option<bool>)
      modifies this
      ensures View() == WithStates(old(View()), wid, iconic)
    {
      if iconic.Some? {
        serverIconic := serverIconic[wid := iconic.value];
      }
    }

    /** made is the id of the window the display makes, or None if it cannot. */
    method HandleNewWindow(wid: int, made: Option<LocalId>, iconic: Option<bool>, overrideRedirect: bool)
      modifies this
      ensures View() == AfterNewWindow(old(View()), wid, made, iconic, overrideRedirect)
    {
      hide Forgotten;
      if wid in windows {
        ForgetWindow(wid, windows[wid]);
      }
      if made.None? {
        return;
      }
      var window := Window(created, made.value);
      created := created + 1;
      ApplyStates(wid, iconic);
      windows := windows[wid := window];
      byLocal := byLocal[window.id := wid];
      if !overrideRedirect {
        sent := sent + [Map(wid)];
      }
    }

    method HandleLostWindow(wid: int)
      modifies this
      ensures View() == WithoutStale(old(View()), wid)
    {
      hide Forgotten;
      if wid !in windows {
        return;
      }
      ForgetWindow(wid, windows[wid]);
    }

    method HandleMetadata(wid: int, iconic: Option<bool>)
      modifies this
      ensures View() == if wid in old(windows) then WithStates(old(View()), wid, iconic) else old(View())
    {
      if wid !in windows {
        return;
      }
      ApplyStates(wid, iconic);
    }

    method Lookup(id: LocalId) returns (wid: int, ok: bool)
      ensures if ok then Resolved(View(), id) == Some(wid) else Resolved(View(), id) == None
    {
      if id !in byLocal {
        return 0, false;
      }
      wid := byLocal[id];
      if wid !in windows {
        return 0, false;
      }
      return wid, true;
    }

    method HandleMinimized(id: LocalId, minimized: bool)
      modifies this
      ensures View() == AfterMinimized(old(View()), id, minimized)
    {
      var wid, ok := Lookup(id);
      var was := wid in iconified && iconified[wid];
      if !ok || was == minimized {
        return;
      }
      iconified := iconified[wid := minimized];
      if wid in serverIconic && serverIconic[wid] == minimized {
        return;
      }
      if minimized {
        iconifyTimers := iconifyTimers + multiset{wid};
        return;
      }
      sent := sent + [Map(wid)];
    }

    /** The timer started for wid has fired. */
    method SendIconified(wid: int)
      requires wid in iconifyTimers
      modifies this
      ensures View() == AfterIconifyDue(old(View()), wid)
    {
      iconifyTimers := iconifyTimers - multiset{wid};
      if !(wid in iconified && iconified[wid]) || (wid in serverIconic && serverIconic[wid]) {
        return;
      }
      sent := sent + [Unmap(wid)];
    }

    method HandleFocus(id: LocalId)
      modifies this
      ensures View() == AfterFocusGained(old(View()), id)
    {
      var wid, ok := Lookup(id);
      if !ok || focused == wid {
        return;
      }
      focused := wid;
      sent := sent + [Focus(wid)];
      reported := Some(windows[wid].serial);
    }

    method HandleFocusLost(id: LocalId)
      modifies this
      ensures View() == AfterFocusLost(old(View()), id)
    {
      var wid, ok := Lookup(id);
      if !ok || focused != wid {
        return;
      }
      focused := 0;
      if focusLosing || !delays {
        return;
      }
      focusLosing := true;
      focusTimers := focusTimers + 1;
    }

    method SendFocusLost()
      requires focusTimers > 0
      modifies this
      ensures View() == AfterFocusLostDue(old(View()))
    {
      focusTimers := focusTimers - 1;
      focusLosing := false;
      if focused != 0 {
        return;
      }
      sent := sent + [Focus(0)];
      reported := None;
    }

    method HandleCloseRequest(id: LocalId)
      modifies this
      ensures View() == AfterReport(old(View()), id, true, true)
    {
      var wid, ok := Lookup(id);
      if !ok {
        return;
      }
      sent := sent + [Close(wid)];
    }

    method HandleConfigure(id: LocalId, differs: bool, resized: bool)
      modifies this
      ensures View() == AfterReport(old(View()), id, differs && resized, false)
    {
      var wid, ok := Lookup(id);
      if !ok {
        return;
      }
      if !differs {
        return;
      }
      if !resized {
        return;
      }
      sent := sent + [Configured(wid)];
    }

    /** One turn of the run loop. */
    method Handle(e: Event)
      requires Possible(View(), e)
      modifies this
      ensures View() == Next(old(View()), e)
    {
      hide Forgotten, WithoutStale, AfterNewWindow, WithStates, AfterMinimized, AfterIconifyDue, AfterFocusGained, AfterFocusLost, AfterFocusLostDue, AfterReport;
      match e
      case NewWindow(wid, made, iconic, overrideRedirect) => HandleNewWindow(wid, made, iconic, overrideRedirect);
      case LostWindow(wid) => HandleLostWindow(wid);
      case Metadata(wid, iconic) => HandleMetadata(wid, iconic);
      case Minimized(id, minimized) => HandleMinimized(id, minimized);
      case IconifyDue(wid) => SendIconified(wid);
      case FocusGained(id) => HandleFocus(id);
      case FocusLost(id) => HandleFocusLost(id);
      case FocusLostDue => SendFocusLost();
      case CloseRequest(id) => HandleCloseRequest(id);
      case Configure(id, differs, resized) => HandleConfigure(id, differs, resized);
    }
  }
}
