/** Keeping the local clipboard and the server's in step: offers, requests for their
    contents, and the text both sides are known to hold. */
module ClipboardSync {
  import opened Bytes
  import opened Utf8

  const MAX_CLIPBOARD_BYTES: nat := 16 * 1024 * 1024
  const MAX_TOKEN_BYTES: nat := 4 * 1024 * 1024
  const SELECTION: string := "CLIPBOARD"
  const TARGETS: seq<string> := ["UTF8_STRING", "text/plain;charset=utf-8", "text/plain", "TEXT", "STRING"]

  type Text = seq<byte>

  // ---- text on the wire --------------------------------------------------------------

  /** A value as a server sends it, with its format and encoding; None for a value that
      is neither binary nor text. */
  datatype Content = Content(format: int, encoding: string, value: Option<Text>)

  function WireText(target: string, c: Content): Option<Text> {
    if target !in TARGETS || c.format != 8 || c.encoding != "bytes" || c.value.None? then None
    else if |c.value.value| > MAX_CLIPBOARD_BYTES then None
    else if ValidUtf8(c.value.value) then c.value
    else if target != "STRING" then None
    else Some(Latin1(c.value.value))
  }

  lemma WireTextValid(target: string, c: Content)
    ensures WireText(target, c).Some? ==> ValidUtf8(WireText(target, c).value)
  {
    if c.value.Some? {
      Latin1Runes(c.value.value);
    }
  }

  /** The target to ask for, of those offered: the first of ours, from the i-th on. */
  function Preferred(targets: seq<string>, i: nat): (t: Option<string>)
    requires i <= |TARGETS|
    decreases |TARGETS| - i
  {
    if i == |TARGETS| then None
    else if TARGETS[i] in targets then Some(TARGETS[i])
    else Preferred(targets, i + 1)
  }

  function PreferredTarget(targets: seq<string>): Option<string> {
    if targets == [] then Some("UTF8_STRING") else Preferred(targets, 0)
  }

  /** The first of our targets a set of inline contents has usable text for. */
  function InlineText(items: map<string, Content>, i: nat): Option<Text>
    requires i <= |TARGETS|
    decreases |TARGETS| - i
  {
    if i == |TARGETS| then None
    else if TARGETS[i] in items && WireText(TARGETS[i], items[TARGETS[i]]).Some? then WireText(TARGETS[i], items[TARGETS[i]])
    else InlineText(items, i + 1)
  }

  // ---- state ------------------------------------------------------------------------

  datatype Request = Request(generation: nat, target: string)

  /** What is sent to the server, and what is put into the local clipboard. */
  datatype Action =
    | SendSelections
    | SendToken(text: Text, inline: bool)
    | SendRequest(id: int, target: string)
    | SendContents(id: int, target: string, text: Text)
    | SendTargets(id: int)
    | SendNone(id: int, selection: string)
    | PutText(text: Text)

  datatype State = State(
    present: bool,
    ready: bool,
    canSend: bool,
    canReceive: bool,
    known: bool,
    text: Text,
    generation: nat,
    nextRequest: nat,
    requests: map<int, Request>,
    actions: seq<Action>)

  function Start(present: bool): State {
    State(present, false, false, false, false, [], 0, 0, map[], [])
  }

  /** The server's clipboard capabilities, as far as they are present. */
  datatype Caps = Caps(enabled: Option<bool>, selections: seq<string>, direction: string)

  /** The packets and local events; `taken` says whether the local clipboard takes the
      text, should it be given one. */
  datatype Event =
    | Configure(caps: Option<Caps>)
    | LocalChange(text: Text)
    | Token(selection: string, claim: bool, targets: seq<string>, inline: Option<(string, Content)>, taken: bool)
    | Data(selection: string, claim: bool, targets: seq<string>, items: map<string, Content>, taken: bool)
    | Contents(id: int, selection: string, content: Content, taken: bool)
    | ContentsNone(id: int)
    | ContentsRequest(id: int, selection: string, target: string)
    | EnableSelections(selections: seq<string>)
    | Status(enabled: bool)

  function WithToken(s: State): State {
    if s.canSend && s.known then s.(actions := s.actions + [SendToken(s.text, |s.text| <= MAX_TOKEN_BYTES)]) else s
  }

  predicate MayReceive(s: State) {
    s.ready && s.canReceive && s.present
  }

  function Applied(s: State, text: Text, taken: bool): State {
    if |text| > MAX_CLIPBOARD_BYTES || (s.known && s.text == text) then s
    else
      var s1 := s.(actions := s.actions + [PutText(text)]);
      if taken then s1.(text := text, known := true) else s1
  }

  function Requested(s: State, targets: seq<string>): State {
    var target := PreferredTarget(targets);
    if target.None? then s
    else s.(nextRequest := s.nextRequest + 1,
            requests := s.requests[s.nextRequest + 1 := Request(s.generation, target.value)],
            actions := s.actions + [SendRequest(s.nextRequest + 1, target.value)])
  }

  /** A new offer makes every request so far stale. */
  function Begun(s: State): State {
    s.(generation := s.generation + 1, requests := map[])
  }

  function AfterConfigure(s: State, caps: Option<Caps>): State {
    var off := s.(ready := false, canSend := false, canReceive := false, requests := map[]);
    if !s.present || caps.None? || caps.value.enabled == Some(false) then off
    else if caps.value.selections != [] && SELECTION !in caps.value.selections then off
    else
      var direction := if caps.value.direction == "" then "both" else caps.value.direction;
      if direction !in {"both", "to-server", "to-client"} then off
      else WithToken(off.(canSend := direction != "to-client", canReceive := direction != "to-server", ready := true,
                          actions := s.actions + [SendSelections]))
  }

  function AfterLocalChange(s: State, text: Text): State {
    if |text| > MAX_CLIPBOARD_BYTES || !ValidUtf8(text) || (s.known && s.text == text) then s
    else
      var s1 := s.(text := text, known := true);
      if s.ready then WithToken(s1) else s1
  }

  predicate Accepts(s: State, selection: string, claim: bool) {
    selection == SELECTION && MayReceive(s) && claim
  }

  function AfterOffer(s: State, selection: string, claim: bool, text: Option<Text>, targets: seq<string>, taken: bool): State {
    if !Accepts(s, selection, claim) then s
    else if text.Some? then Applied(Begun(s), text.value, taken)
    else Requested(Begun(s), targets)
  }

  /** The text a reply brings for an outstanding request. */
  function ReplyText(s: State, id: int, selection: string, content: Content): Option<Text> {
    if id !in s.requests || s.requests[id].generation != s.generation || selection != SELECTION then None
    else WireText(s.requests[id].target, content)
  }

  function AfterContents(s: State, id: int, selection: string, content: Content, taken: bool): State {
    var s1 := s.(requests := s.requests - {id});
    var text := ReplyText(s, id, selection, content);
    if text.None? then s1 else Applied(s1, text.value, taken)
  }

  function AfterContentsRequest(s: State, id: int, selection: string, target: string): State {
    var answer :=
      if !s.ready || !s.canSend || selection != SELECTION then SendNone(id, selection)
      else if target == "TARGETS" then SendTargets(id)
      else if target !in TARGETS || !s.known then SendNone(id, selection)
      else SendContents(id, target, s.text);
    s.(actions := s.actions + [answer])
  }

  function AfterEnableSelections(s: State, selections: seq<string>): State {
    if SELECTION !in selections then s.(ready := false)
    else if s.present && (s.canSend || s.canReceive) then WithToken(s.(ready := true))
    else s
  }

  function AfterStatus(s: State, enabled: bool): State {
    if enabled && s.present && (s.canSend || s.canReceive) then WithToken(s.(ready := true))
    else s.(ready := false, requests := map[])
  }

  function OfferText(e: Event): Option<Text>
    requires e.Token? || e.Data?
  {
    if e.Data? then InlineText(e.items, 0)
    else if e.inline.Some? then WireText(e.inline.value.0, e.inline.value.1)
    else None
  }

  function Next(s: State, e: Event): State {
    match e
    case Configure(caps) => AfterConfigure(s, caps)
    case LocalChange(text) => AfterLocalChange(s, text)
    case Token(selection, claim, targets, _, taken) => AfterOffer(s, selection, claim, OfferText(e), targets, taken)
    case Data(selection, claim, targets, _, taken) => AfterOffer(s, selection, claim, OfferText(e), targets, taken)
    case Contents(id, selection, content, taken) => AfterContents(s, id, selection, content, taken)
    case ContentsNone(id) => s.(requests := s.requests - {id})
    case ContentsRequest(id, selection, target) => AfterContentsRequest(s, id, selection, target)
    case EnableSelections(selections) => AfterEnableSelections(s, selections)
    case Status(enabled) => AfterStatus(s, enabled)
  }

  function After(s: State, es: seq<Event>): State {
    if es == [] then s else Next(After(s, es[..|es| - 1]), es[|es| - 1])
  }

  // ---- invariant ----------------------------------------------------------------------

  /** At most one request is outstanding: the newest ever made, made for the newest
      offer, and for a target of ours. */
  ghost predicate OneRequest(s: State) {
    && (forall id :: id in s.requests ==>
          id == s.nextRequest && s.requests[id].generation == s.generation && s.requests[id].target in TARGETS)
    && (s.requests != map[] ==> s.present && s.canReceive)
  }

  ghost predicate TextSound(s: State) {
    s.known ==> ValidUtf8(s.text) && |s.text| <= MAX_CLIPBOARD_BYTES
  }

  lemma {:induction false} InlineTextValid(items: map<string, Content>, i: nat)
    requires i <= |TARGETS|
    ensures InlineText(items, i).Some? ==> ValidUtf8(InlineText(items, i).value)
    decreases |TARGETS| - i
  {
    hide WireText;
    if i == |TARGETS| {
    } else {
      if TARGETS[i] in items {
        WireTextValid(TARGETS[i], items[TARGETS[i]]);
      }
      InlineTextValid(items, i + 1);
    }
  }

  lemma OfferTextValid(e: Event)
    requires e.Token? || e.Data?
    ensures OfferText(e).Some? ==> ValidUtf8(OfferText(e).value)
  {
    hide WireText, InlineText;
    if e.Data? {
      InlineTextValid(e.items, 0);
    } else if e.inline.Some? {
      WireTextValid(e.inline.value.0, e.inline.value.1);
    }
  }

  lemma {:induction false} PreferredIsOurs(targets: seq<string>, i: nat)
    requires i <= |TARGETS|
    ensures Preferred(targets, i).Some? ==> Preferred(targets, i).value in TARGETS
    decreases |TARGETS| - i
  {
    if i == |TARGETS| {
    } else {
      PreferredIsOurs(targets, i + 1);
    }
  }

  lemma TargetIsOurs(targets: seq<string>)
    ensures PreferredTarget(targets).Some? ==> PreferredTarget(targets).value in TARGETS
  {
    PreferredIsOurs(targets, 0);
    assert TARGETS[0] == "UTF8_STRING";
  }

  lemma SoundStep(s: State, e: Event)
    requires OneRequest(s) && TextSound(s)
    ensures OneRequest(Next(s, e)) && TextSound(Next(s, e))
  {
    hide ValidUtf8, WireText, InlineText, PreferredTarget, OfferText;
    if e.Token? || e.Data? {
      TargetIsOurs(e.targets);
      OfferTextValid(e);
    } else if e.Contents? && e.id in s.requests {
      WireTextValid(s.requests[e.id].target, e.content);
    }
  }

  lemma {:induction false} EveryRun(present: bool, es: seq<Event>)
    ensures OneRequest(After(Start(present), es)) && TextSound(After(Start(present), es))
  {
    hide Next, OneRequest, TextSound;
    if es != [] {
      EveryRun(present, es[..|es| - 1]);
      SoundStep(After(Start(present), es[..|es| - 1]), es[|es| - 1]);
    } else {
      StartSound(present);
    }
  }

  lemma StartSound(present: bool)
    ensures OneRequest(Start(present)) && TextSound(Start(present))
  {
  }

  // ---- replies ------------------------------------------------------------------------

  /** The generation of an outstanding request is always the current one: only an
      unknown id or another selection ever turns a reply away. */
  lemma GenerationNeverRejects(present: bool, es: seq<Event>, id: int, selection: string, content: Content)
    ensures var s := After(Start(present), es);
      ReplyText(s, id, selection, content)
      == if id in s.requests && selection == SELECTION then WireText(s.requests[id].target, content) else None
  {
    hide WireText;
    EveryRun(present, es);
  }

  /** A request that was made, and is not outstanding any more. */
  predicate Stale(s: State, id: int) {
    id <= s.nextRequest && id !in s.requests
  }

  lemma StaleStep(s: State, e: Event, id: int)
    requires Stale(s, id)
    ensures Stale(Next(s, e), id)
  {
    hide ValidUtf8, WireText, InlineText, Preferred, OfferText;
  }

  lemma {:induction false} StaleRun(s: State, es: seq<Event>, id: int)
    requires Stale(s, id)
    ensures Stale(After(s, es), id)
  {
    hide Next, Stale;
    if es == [] {
    } else {
      StaleRun(s, es[..|es| - 1], id);
      StaleStep(After(s, es[..|es| - 1]), es[|es| - 1], id);
    }
  }

  /** After a new offer no reply to an earlier request is ever taken: whatever happens
      in between, it leaves everything as it is. */
  lemma OnlyNewestOffer(s: State, offer: Event, es: seq<Event>, id: int, selection: string, content: Content, taken: bool)
    requires (offer.Token? || offer.Data?) && Accepts(s, offer.selection, offer.claim)
    requires id <= s.nextRequest
    ensures var t := After(Next(s, offer), es);
      Next(t, Contents(id, selection, content, taken)) == t
  {
    hide ValidUtf8, WireText, InlineText, Preferred, OfferText;
    assert Stale(Next(s, offer), id);
    StaleRun(Next(s, offer), es, id);
    var t := After(Next(s, offer), es);
    assert t.requests - {id} == t.requests;
  }

  /** Nor is a second reply to the same request. */
  lemma AppliedOnce(s: State, reply: Event, es: seq<Event>, selection: string, content: Content, taken: bool)
    requires reply.Contents? && reply.id <= s.nextRequest
    ensures var t := After(Next(s, reply), es);
      Next(t, Contents(reply.id, selection, content, taken)) == t
  {
    hide ValidUtf8, WireText;
    assert Stale(Next(s, reply), reply.id);
    StaleRun(Next(s, reply), es, reply.id);
    var t := After(Next(s, reply), es);
    assert t.requests - {reply.id} == t.requests;
  }

  // ---- what leaves the client ------------------------------------------------------------

  /** Text is sent only while sending is allowed, and it is the text known; text is put
      into the local clipboard only if it is valid and within the limit. */
  ghost predicate Proper(s: State, a: Action) {
    && (a.SendToken? || a.SendContents? ==> s.ready && s.canSend && s.known && a.text == s.text)
    && (a.SendToken? ==> a.inline == (|s.text| <= MAX_TOKEN_BYTES))
    && (a.PutText? ==> ValidUtf8(a.text) && |a.text| <= MAX_CLIPBOARD_BYTES)
  }

  /** A step keeps the actions so far and adds proper ones. */
  ghost predicate AddsProper(s: State, t: State) {
    && s.actions <= t.actions
    && forall i :: |s.actions| <= i < |t.actions| ==> Proper(t, t.actions[i])
  }

  lemma AppliedProper(s: State, text: Text, taken: bool)
    requires ValidUtf8(text)
    ensures AddsProper(s, Applied(s, text, taken))
  {
    hide ValidUtf8;
  }

  lemma OfferProper(s: State, e: Event)
    requires e.Token? || e.Data?
    ensures AddsProper(s, Next(s, e))
  {
    hide ValidUtf8, WireText, InlineText, PreferredTarget, OfferText, Applied;
    OfferTextValid(e);
    if OfferText(e).Some? {
      AppliedProper(Begun(s), OfferText(e).value, e.taken);
    }
  }

  lemma ReplyProper(s: State, id: int, selection: string, content: Content, taken: bool)
    ensures AddsProper(s, AfterContents(s, id, selection, content, taken))
  {
    hide ValidUtf8, WireText, Applied;
    if id in s.requests {
      WireTextValid(s.requests[id].target, content);
    }
    var text := ReplyText(s, id, selection, content);
    if text.Some? {
      AppliedProper(s.(requests := s.requests - {id}), text.value, taken);
    }
  }

  lemma ActionsProper(s: State, e: Event)
    ensures AddsProper(s, Next(s, e))
  {
    if e.Token? || e.Data? {
      OfferProper(s, e);
    } else if e.Contents? {
      ReplyProper(s, e.id, e.selection, e.content, e.taken);
    } else {
      hide ValidUtf8, AfterOffer, OfferText, AfterContents;
    }
  }

  /** Text that came from the server and was taken is not sent back when the local
      clipboard reports it, and text the server sends back is not put again. */
  lemma NoEcho(s: State, text: Text, taken: bool)
    ensures |text| <= MAX_CLIPBOARD_BYTES ==> Next(Applied(s, text, true), LocalChange(text)) == Applied(s, text, true)
    ensures ValidUtf8(text) && |text| <= MAX_CLIPBOARD_BYTES ==>
      Applied(Next(s, LocalChange(text)), text, taken) == Next(s, LocalChange(text))
  {
    hide ValidUtf8;
  }

  // ---- replies while the clipboard is off --------------------------------------------------

  lemma AsciiText(target: string, b: byte)
    requires b < 0x80 && target in TARGETS
    ensures WireText(target, Content(8, "bytes", Some([b]))) == Some([b])
  {
    assert RuneLength([b]) == 1 && [b][1..] == [] && ValidUtf8([]);
    assert ValidUtf8([b]);
  }

  /** The step puts text into the local clipboard although the clipboard is off. */
  ghost predicate PutsWhileOff(s: State, e: Event) {
    && !s.ready
    && exists i :: |s.actions| <= i < |Next(s, e).actions| && Next(s, e).actions[i].PutText?
  }

  /** The server withdraws the selection while a request is outstanding. */
  predicate Withdraws(s: State, e: Event) {
    e.EnableSelections? && SELECTION !in e.selections && s.requests != map[]
  }

  /** A request is outstanding only while the clipboard is on. */
  predicate WaitsOnlyWhenReady(s: State) {
    s.requests != map[] ==> s.ready
  }

  lemma WaitsStep(s: State, e: Event)
    requires WaitsOnlyWhenReady(s)
    ensures WaitsOnlyWhenReady(Next(s, e)) <==> !Withdraws(s, e)
  {
    hide ValidUtf8, WireText, InlineText, Preferred, OfferText;
    if e.Contents? || e.ContentsNone? {
      if s.requests == map[] {
        assert s.requests - {e.id} == map[];
      }
    }
  }

  /** While the clipboard is off, only a reply to an outstanding request is put. */
  lemma PutsOnlyReplies(s: State, e: Event)
    requires PutsWhileOff(s, e)
    ensures e.Contents? && e.id in s.requests
  {
    hide ValidUtf8, WireText, InlineText, Preferred, OfferText, Applied;
  }

  lemma NoPut(s: State, e: Event)
    requires WaitsOnlyWhenReady(s)
    ensures !PutsWhileOff(s, e)
  {
    hide Next;
    if PutsWhileOff(s, e) {
      PutsOnlyReplies(s, e);
    }
  }

  lemma {:induction false} ReadyRun(present: bool, es: seq<Event>)
    requires forall k :: 0 <= k < |es| ==> !Withdraws(After(Start(present), es[..k]), es[k])
    ensures WaitsOnlyWhenReady(After(Start(present), es))
  {
    hide Next, Withdraws, WaitsOnlyWhenReady;
    if es == [] {
      assert WaitsOnlyWhenReady(Start(present)) by { StartWaits(present); }
    } else {
      var n := |es| - 1;
      forall k | 0 <= k < n ensures !Withdraws(After(Start(present), es[..n][..k]), es[..n][k]) {
        assert es[..n][..k] == es[..k];
      }
      ReadyRun(present, es[..n]);
      assert !Withdraws(After(Start(present), es[..n]), es[n]);
      WaitsStep(After(Start(present), es[..n]), es[n]);
    }
  }

  lemma StartWaits(present: bool)
    ensures WaitsOnlyWhenReady(Start(present))
  {
  }

  /** A reply the client would put: its text is not the one it knows already. */
  function NewReply(s: State): Event {
    Contents(s.nextRequest, SELECTION, Content(8, "bytes", Some(if s.text == [65] then [66] else [65])), true)
  }

  lemma SomeRequest(s: State)
    ensures s.requests == map[] || exists id :: id in s.requests
  {
    if forall id :: id !in s.requests {
      assert s.requests == map[];
    }
  }

  /** Once a request is outstanding while the clipboard is off, its reply is put. */
  lemma ReplyIsPut(s: State)
    requires OneRequest(s) && s.requests != map[] && !s.ready
    ensures PutsWhileOff(s, NewReply(s))
  {
    hide ValidUtf8, WireText, Latin1;
    SomeRequest(s);
    var id :| id in s.requests;
    var r := NewReply(s);
    AsciiText(s.requests[id].target, r.content.value.value[0]);
    assert ReplyText(s, r.id, r.selection, r.content) == r.content.value;
    assert Next(s, r).actions[|s.actions|].PutText?;
  }

  /** A withdrawal with a request outstanding leaves the clipboard off, and a reply that
      would be put. */
  lemma WithdrawalPuts(s: State, e: Event)
    requires OneRequest(s) && Withdraws(s, e)
    ensures PutsWhileOff(Next(s, e), NewReply(Next(s, e)))
  {
    hide ValidUtf8, WireText, NewReply, PutsWhileOff;
    ReplyIsPut(Next(s, e));
  }

  /** When text is put while the clipboard is off: somewhere along a run there is an event
      that would do it, if and only if at some step of the run the server withdraws the
      selection while a request is outstanding. */
  lemma PutWhileOffExactly(present: bool, es: seq<Event>)
    ensures (exists k, e :: 0 <= k <= |es| && PutsWhileOff(After(Start(present), es[..k]), e))
       <==> (exists k :: 0 <= k < |es| && Withdraws(After(Start(present), es[..k]), es[k]))
  {
    hide Next, After, PutsWhileOff, Withdraws, WaitsOnlyWhenReady, OneRequest, TextSound, NewReply;
    RunSteps(present, es);
    if k :| 0 <= k < |es| && Withdraws(After(Start(present), es[..k]), es[k]) {
      EveryRun(present, es[..k]);
      var s := After(Start(present), es[..k]);
      WithdrawalPuts(s, es[k]);
      assert PutsWhileOff(After(Start(present), es[..k + 1]), NewReply(Next(s, es[k])));
    } else {
      forall k, e | 0 <= k <= |es| ensures !PutsWhileOff(After(Start(present), es[..k]), e) {
        forall j | 0 <= j < k ensures !Withdraws(After(Start(present), es[..k][..j]), es[..k][j]) {
          assert es[..k][..j] == es[..j];
        }
        ReadyRun(present, es[..k]);
        NoPut(After(Start(present), es[..k]), e);
      }
    }
  }

  lemma RunSteps(present: bool, es: seq<Event>)
    ensures forall k :: 0 <= k < |es| ==> After(Start(present), es[..k + 1]) == Next(After(Start(present), es[..k]), es[k])
  {
    hide Next;
    forall k | 0 <= k < |es| ensures After(Start(present), es[..k + 1]) == Next(After(Start(present), es[..k]), es[k]) {
      assert es[..k + 1][..k] == es[..k];
    }
  }

  /** So no run in which the server never does that puts text while the clipboard is off. */
  lemma NeverPutWhileOff(present: bool, es: seq<Event>, n: nat)
    requires forall k :: 0 <= k < |es| ==> !Withdraws(After(Start(present), es[..k]), es[k])
    requires n < |es|
    ensures !PutsWhileOff(After(Start(present), es[..n]), es[n])
  {
    hide Next, PutsWhileOff, Withdraws;
    PutWhileOffExactly(present, es);
  }

  /** The shortest run that does it. */
  lemma PutWhileOff()
    ensures var es := [
        Configure(Some(Caps(None, [], ""))), Token(SELECTION, true, [], None, true),
        EnableSelections([]), Contents(1, SELECTION, Content(8, "bytes", Some([65])), true)];
      var s := After(Start(true), es);
      !s.ready && s.actions == [SendSelections, SendRequest(1, "UTF8_STRING"), PutText([65])]
  {
    hide ValidUtf8, Latin1, WireText, After;
    var e1 := Configure(Some(Caps(None, [], "")));
    var e2 := Token(SELECTION, true, [], None, true);
    var e3 := EnableSelections([]);
    var e4 := Contents(1, SELECTION, Content(8, "bytes", Some([65])), true);
    var s0 := Start(true);
    FourSteps(s0, e1, e2, e3, e4);
    var s1 := Next(s0, e1);
    assert s1 == s0.(ready := true, canSend := true, canReceive := true, actions := [SendSelections]);
    var s2 := Next(s1, e2);
    var r := Request(1, "UTF8_STRING");
    assert s2 == s1.(generation := 1, nextRequest := 1, requests := map[1 := r], actions := [SendSelections, SendRequest(1, "UTF8_STRING")]);
    var s3 := Next(s2, e3);
    assert s3 == s2.(ready := false);
    AsciiText("UTF8_STRING", 65);
    assert "UTF8_STRING" == TARGETS[0];
    assert ReplyText(s3, 1, SELECTION, e4.content) == Some([65]);
  }

  lemma FourSteps(s: State, a: Event, b: Event, c: Event, d: Event)
    ensures After(s, [a, b, c, d]) == Next(Next(Next(Next(s, a), b), c), d)
  {
    hide Next;
    assert After(s, []) == s;
    AfterSnoc(s, [], a);
    AfterSnoc(s, [a], b);
    AfterSnoc(s, [a, b], c);
    AfterSnoc(s, [a, b, c], d);
    assert [] + [a] == [a] && [a] + [b] == [a, b] && [a, b] + [c] == [a, b, c] && [a, b, c] + [d] == [a, b, c, d];
  }

  lemma AfterSnoc(s: State, es: seq<Event>, e: Event)
    ensures After(s, es + [e]) == Next(After(s, es), e)
  {
    assert (es + [e])[..|es|] == es;
  }

  // ---- what the server and the desktop say ------------------------------------------------------

  /** The server's capabilities let the clipboard be used at all. */
  predicate Offered(caps: Option<Caps>) {
    && caps.Some? && caps.value.enabled != Some(false)
    && (caps.value.selections == [] || "CLIPBOARD" in caps.value.selections)
    && caps.value.direction in ["", "both", "to-server", "to-client"]
  }

  /** The capabilities the server named last. */
  function LastCaps(es: seq<Event>): Option<Caps> {
    if es == [] then None
    else if es[|es| - 1].Configure? then es[|es| - 1].caps
    else LastCaps(es[..|es| - 1])
  }

  predicate SendAllowed(es: seq<Event>) {
    Offered(LastCaps(es)) && LastCaps(es).value.direction != "to-client"
  }

  predicate ReceiveAllowed(es: seq<Event>) {
    Offered(LastCaps(es)) && LastCaps(es).value.direction != "to-server"
  }

  /** Whether the clipboard is on, by the events alone: the server turns it on and off with
      its capabilities, its selections and its status, the latter two within what the first
      allow. */
  predicate TurnedOn(es: seq<Event>) {
    if es == [] then false
    else
      var front, e := es[..|es| - 1], es[|es| - 1];
      if e.Configure? then Offered(e.caps)
      else if e.EnableSelections? then "CLIPBOARD" in e.selections && (TurnedOn(front) || Offered(LastCaps(front)))
      else if e.Status? then e.enabled && Offered(LastCaps(front))
      else TurnedOn(front)
  }

  lemma FlagsStep(s: State, e: Event)
    ensures var t := Next(s, e);
      && t.present == s.present
      && (e.Configure? ==>
            && t.ready == (s.present && Offered(e.caps))
            && t.canSend == (s.present && Offered(e.caps) && e.caps.value.direction != "to-client")
            && t.canReceive == (s.present && Offered(e.caps) && e.caps.value.direction != "to-server"))
      && (!e.Configure? ==> t.canSend == s.canSend && t.canReceive == s.canReceive)
      && (e.EnableSelections? ==> t.ready == ("CLIPBOARD" in e.selections && (s.ready || (s.present && (s.canSend || s.canReceive)))))
      && (e.Status? ==> t.ready == (e.enabled && s.present && (s.canSend || s.canReceive)))
      && (!e.Configure? && !e.EnableSelections? && !e.Status? ==> t.ready == s.ready)
  {
    hide ValidUtf8, WireText, InlineText, PreferredTarget, OfferText;
    if e.Configure? && e.caps.Some? {
      Directions(e.caps.value.direction);
    }
  }

  lemma Directions(direction: string)
    ensures direction in ["", "both", "to-server", "to-client"]
      <==> direction == "" || direction in {"both", "to-server", "to-client"}
  {
  }

  /** In every reachable state the client sends, receives and has the clipboard on as the
      server last said; without a local clipboard, never. */
  lemma {:induction false} FlagsAreSaid(present: bool, es: seq<Event>)
    ensures var s := After(Start(present), es);
      && s.present == present
      && s.canSend == (present && SendAllowed(es)) && s.canReceive == (present && ReceiveAllowed(es))
      && s.ready == (present && TurnedOn(es))
  {
    assert !Offered(None);
    hide Next, Offered;
    if es == [] {
    } else {
      FlagsAreSaid(present, es[..|es| - 1]);
      FlagsStep(After(Start(present), es[..|es| - 1]), es[|es| - 1]);
    }
  }

  /** The last action of a step, if it took any and the last one put a text. */
  function LastPut(s: State, t: State): Option<Text> {
    if |t.actions| > |s.actions| && t.actions[|t.actions| - 1].PutText? then Some(t.actions[|t.actions| - 1].text) else None
  }

  /** t holds the text that the step to it put and the desktop took, or else that of s. */
  ghost predicate Holds(s: State, t: State, taken: bool) {
    && s.actions <= t.actions
    && (if taken && LastPut(s, t).Some? then t.known && t.text == LastPut(s, t).value else t.known == s.known && t.text == s.text)
  }

  lemma AppliedHolds(s: State, text: Text, taken: bool)
    ensures Holds(s, Applied(s, text, taken), taken)
  {
  }

  /** The text held is the last one the desktop announced, if it could be sent, or the last
      one that was put into the local clipboard and taken. */
  lemma HeldStep(s: State, e: Event)
    ensures if e.LocalChange? && ValidUtf8(e.text) && |e.text| <= 16 * 1024 * 1024 then Next(s, e).known && Next(s, e).text == e.text
            else Holds(s, Next(s, e), (e.Token? || e.Data? || e.Contents?) && e.taken)
  {
    hide ValidUtf8, WireText, InlineText, PreferredTarget, OfferText, Applied;
    if e.Token? || e.Data? {
      hide AfterContents, AfterConfigure, AfterLocalChange, AfterContentsRequest, AfterEnableSelections, AfterStatus, ReplyText;
      if OfferText(e).Some? {
        AppliedHolds(Begun(s), OfferText(e).value, e.taken);
      }
    } else if e.Contents? {
      hide AfterOffer, AfterConfigure, AfterLocalChange, AfterContentsRequest, AfterEnableSelections, AfterStatus;
      var text := ReplyText(s, e.id, e.selection, e.content);
      if text.Some? {
        AppliedHolds(s.(requests := s.requests - {e.id}), text.value, e.taken);
      }
    } else {
      hide AfterOffer, AfterContents;
    }
  }

  // ---- the targets and the text -----------------------------------------------------------------

  lemma OurTargets(target: string)
    ensures target in TARGETS <==> target in ["UTF8_STRING", "text/plain;charset=utf-8", "text/plain", "TEXT", "STRING"]
  {
  }

  /** What counts as text from the server: bytes of eight bits under a target of ours,
      within 16 MiB, and valid UTF-8, or else Latin-1 if the target is STRING. */
  lemma WireTextExact(target: string, c: Content)
    ensures WireText(target, c).Some? <==>
      && target in ["UTF8_STRING", "text/plain;charset=utf-8", "text/plain", "TEXT", "STRING"]
      && c.format == 8 && c.encoding == "bytes" && c.value.Some? && |c.value.value| <= 16 * 1024 * 1024
      && (ValidUtf8(c.value.value) || target == "STRING")
    ensures WireText(target, c).Some? ==>
      WireText(target, c).value == if ValidUtf8(c.value.value) then c.value.value else Latin1(c.value.value)
  {
    hide ValidUtf8, Latin1;
    OurTargets(target);
  }

  lemma {:induction false} PreferredFirst(targets: seq<string>, i: nat)
    requires i <= |TARGETS|
    ensures var t := Preferred(targets, i);
      && (t.None? ==> forall j :: i <= j < |TARGETS| ==> TARGETS[j] !in targets)
      && (t.Some? ==> exists k :: i <= k < |TARGETS| && t.value == TARGETS[k] && TARGETS[k] in targets
                        && forall j :: i <= j < k ==> TARGETS[j] !in targets)
    decreases |TARGETS| - i
  {
    if i == |TARGETS| {
    } else {
      PreferredFirst(targets, i + 1);
    }
  }

  /** The target asked for is the first of ours that is offered, or UTF8_STRING if the
      offer names none; nothing is asked for if none of ours is offered. */
  lemma AskedTarget(targets: seq<string>)
    ensures var t := PreferredTarget(targets);
      && (targets == [] ==> t == Some("UTF8_STRING"))
      && (targets != [] ==> (t.None? <==> forall j :: 0 <= j < |TARGETS| ==> TARGETS[j] !in targets))
      && (targets != [] && t.Some? ==>
            exists k :: 0 <= k < |TARGETS| && t.value == TARGETS[k] && TARGETS[k] in targets
              && forall j :: 0 <= j < k ==> TARGETS[j] !in targets)
  {
    hide Preferred;
    PreferredFirst(targets, 0);
  }

  /** Target k of ours has usable text among inline contents. */
  predicate Usable(items: map<string, Content>, k: nat)
    requires k < |TARGETS|
  {
    TARGETS[k] in items && WireText(TARGETS[k], items[TARGETS[k]]).Some?
  }

  /** Of inline contents, the text of the first of our targets that has any is taken. */
  lemma {:induction false} InlineFirst(items: map<string, Content>, i: nat)
    requires i <= |TARGETS|
    ensures var t := InlineText(items, i);
      && (t.None? ==> forall j :: i <= j < |TARGETS| ==> !Usable(items, j))
      && (t.Some? ==> exists k :: i <= k < |TARGETS| && Usable(items, k) && t == WireText(TARGETS[k], items[TARGETS[k]])
                        && forall j :: i <= j < k ==> !Usable(items, j))
    decreases |TARGETS| - i
  {
    hide WireText;
    if i == |TARGETS| {
    } else {
      InlineFirst(items, i + 1);
      if Usable(items, i) {
        assert InlineText(items, i) == WireText(TARGETS[i], items[TARGETS[i]]);
      }
    }
  }

  // ---- copying from one side to the other ---------------------------------------------------------

  /** A text copied on the server's side: its offer makes the client ask, under a new id,
      and the answer is put into the local clipboard, unless that text is known already, or
      has grown past 16 MiB from Latin-1. */
  lemma RemoteCopyArrives(es: seq<Event>, targets: seq<string>, target: string, taken: bool, content: Content, text: Text)
    requires TurnedOn(es) && ReceiveAllowed(es)
    requires PreferredTarget(targets) == Some(target) && WireText(target, content) == Some(text)
    ensures var s := After(Start(true), es);
      var id := s.nextRequest + 1;
      var t := After(Start(true), es + [Token("CLIPBOARD", true, targets, None, true)] + [Contents(id, "CLIPBOARD", content, taken)]);
      var puts := |text| <= 16 * 1024 * 1024 && !(s.known && s.text == text);
      && t.actions == s.actions + [SendRequest(id, target)] + (if puts then [PutText(text)] else [])
      && t.requests == map[] && t.nextRequest == id
      && (puts && taken ==> t.known && t.text == text)
  {
    hide After, ValidUtf8, WireText, PreferredTarget, TurnedOn, ReceiveAllowed;
    FlagsAreSaid(true, es);
    var s := After(Start(true), es);
    var id := s.nextRequest + 1;
    var offer := Token("CLIPBOARD", true, targets, None, true);
    AfterSnoc(Start(true), es, offer);
    AfterSnoc(Start(true), es + [offer], Contents(id, "CLIPBOARD", content, taken));
    var s1 := Next(s, offer);
    assert s1.requests == map[id := Request(s1.generation, target)];
    assert s1.requests - {id} == map[];
  }

  /** One whose text comes with the offer is put at once, and nothing is asked. */
  lemma InlineCopyArrives(es: seq<Event>, targets: seq<string>, target: string, taken: bool, content: Content, text: Text)
    requires TurnedOn(es) && ReceiveAllowed(es) && WireText(target, content) == Some(text)
    ensures var s, t := After(Start(true), es), After(Start(true), es + [Token("CLIPBOARD", true, targets, Some((target, content)), taken)]);
      var puts := |text| <= 16 * 1024 * 1024 && !(s.known && s.text == text);
      && t.actions == s.actions + (if puts then [PutText(text)] else [])
      && t.requests == map[] && t.nextRequest == s.nextRequest
      && (puts && taken ==> t.known && t.text == text)
  {
    hide After, ValidUtf8, WireText, TurnedOn, ReceiveAllowed;
    FlagsAreSaid(true, es);
    AfterSnoc(Start(true), es, Token("CLIPBOARD", true, targets, Some((target, content)), taken));
  }

  /** An offer is ignored unless it is for the clipboard, claims it, and text may be
      received. */
  lemma OfferIgnored(present: bool, es: seq<Event>, e: Event)
    requires e.Token? || e.Data?
    requires e.selection != "CLIPBOARD" || !e.claim || !present || !TurnedOn(es) || !ReceiveAllowed(es)
    ensures After(Start(present), es + [e]) == After(Start(present), es)
  {
    hide After, OfferText, TurnedOn, ReceiveAllowed;
    FlagsAreSaid(present, es);
    AfterSnoc(Start(present), es, e);
  }

  /** A text copied on this side is announced, with the text itself if it is within 4 MiB,
      and given to a server that asks for it under a target of ours. */
  lemma LocalCopyServed(es: seq<Event>, text: Text, id: int, target: string)
    requires TurnedOn(es) && SendAllowed(es) && ValidUtf8(text) && |text| <= 16 * 1024 * 1024
    requires !(After(Start(true), es).known && After(Start(true), es).text == text)
    requires target in TARGETS
    ensures var s, t := After(Start(true), es), After(Start(true), es + [LocalChange(text)] + [ContentsRequest(id, "CLIPBOARD", target)]);
      t.actions == s.actions + [SendToken(text, |text| <= 4 * 1024 * 1024)] + [SendContents(id, target, text)]
  {
    hide After, ValidUtf8, TurnedOn, SendAllowed;
    FlagsAreSaid(true, es);
    var s := After(Start(true), es);
    AfterSnoc(Start(true), es, LocalChange(text));
    AfterSnoc(Start(true), es + [LocalChange(text)], ContentsRequest(id, "CLIPBOARD", target));
    assert target != "TARGETS";
  }

  /** What a request for the local text is answered: the text, if it is known, may be sent
      and is asked for under a target of ours; the list of targets, if that is what is asked
      for; and otherwise nothing. */
  lemma RequestAnswered(present: bool, es: seq<Event>, id: int, selection: string, target: string)
    ensures var s := After(Start(present), es);
      var open := present && TurnedOn(es) && SendAllowed(es) && selection == "CLIPBOARD";
      After(Start(present), es + [ContentsRequest(id, selection, target)])
      == s.(actions := s.actions +
              [if open && target == "TARGETS" then SendTargets(id)
               else if open && target in TARGETS && s.known then SendContents(id, target, s.text)
               else SendNone(id, selection)])
  {
    hide After, TurnedOn, SendAllowed;
    FlagsAreSaid(present, es);
    AfterSnoc(Start(present), es, ContentsRequest(id, selection, target));
    NotOurTarget();
  }

  lemma NotOurTarget()
    ensures "TARGETS" !in TARGETS
  {
  }

  /** When the server turns the clipboard on, it is told of the text known here, if text
      may be sent. */
  lemma TurningOnAnnounces(present: bool, es: seq<Event>, e: Event)
    requires e.EnableSelections? || e.Status? || e.Configure?
    ensures var s, t := After(Start(present), es), After(Start(present), es + [e]);
      && t.text == s.text && t.known == s.known
      && t.actions == s.actions
         + (if e.Configure? && t.ready then [SendSelections] else [])
         + (if t.ready && t.canSend && s.known && (e.EnableSelections? ==> s.present && "CLIPBOARD" in e.selections)
            then [SendToken(s.text, |s.text| <= 4 * 1024 * 1024)] else [])
  {
    hide After;
    AfterSnoc(Start(present), es, e);
    FlagsAreSaid(present, es);
    hide TurnedOn, SendAllowed, ReceiveAllowed;
  }

  // ---- the client's clipboard fields ----------------------------------------------------------

  class Clipboard {
    const present: bool
    var ready: bool
    var canSend: bool
    var canReceive: bool
    var known: bool
    var text: Text
    var generation: nat
    var nextRequest: nat
    var requests: map<int, Request>
    var actions: seq<Action>

    constructor (present: bool)
      ensures View() == Start(present)
    {
      this.present := present;
      ready, canSend, canReceive, known, text := false, false, false, false, [];
      generation, nextRequest, requests, actions := 0, 0, map[], [];
    }

    ghost function View(): State
      reads this
    {
      State(present, ready, canSend, canReceive, known, text, generation, nextRequest, requests, actions)
    }

    method SendClipboardToken()
      requires canSend
      modifies `actions
      ensures View() == WithToken(old(View()))
    {
      if !known {
        return;
      }
      var inline := |text| <= MAX_TOKEN_BYTES;
      actions := actions + [SendToken(text, inline)];
    }

    method ConfigureClipboard(caps: Option<Caps>)
      modifies this
      ensures View() == AfterConfigure(old(View()), caps)
    {
      ready, canSend, canReceive := false, false, false;
      requests := map[];
      if !present || caps.None? || caps.value.enabled == Some(false) {
        return;
      }
      var selections := caps.value.selections;
      if |selections| > 0 && SELECTION !in selections {
        return;
      }
      var direction := caps.value.direction;
      if direction == "" {
        direction := "both";
      }
      if direction == "both" {
        canSend, canReceive := true, true;
      } else if direction == "to-server" {
        canSend := true;
      } else if direction == "to-client" {
        canReceive := true;
      } else {
        return;
      }
      ready := true;
      actions := actions + [SendSelections];
      if canSend && known {
        SendClipboardToken();
      }
    }

    method HandleClipboardChange(text: Text)
      modifies this
      ensures View() == AfterLocalChange(old(View()), text)
    {
      hide ValidUtf8;
      if |text| > MAX_CLIPBOARD_BYTES || !ValidUtf8(text) {
        return;
      }
      if known && this.text == text {
        return;
      }
      this.text, known := text, true;
      if ready && canSend {
        SendClipboardToken();
      }
    }

    method ApplyRemoteClipboard(text: Text, taken: bool)
      modifies this
      ensures View() == Applied(old(View()), text, taken)
    {
      if |text| > MAX_CLIPBOARD_BYTES {
        return;
      }
      if known && this.text == text {
        return;
      }
      actions := actions + [PutText(text)];
      if !taken {
        return;
      }
      this.text, known := text, true;
    }

    method FindTarget(targets: seq<string>) returns (target: Option<string>)
      ensures target == PreferredTarget(targets)
    {
      if |targets| == 0 {
        return Some("UTF8_STRING");
      }
      for i := 0 to |TARGETS|
        invariant Preferred(targets, 0) == Preferred(targets, i)
      {
        if TARGETS[i] in targets {
          return Some(TARGETS[i]);
        }
      }
      return None;
    }

    method RequestRemoteClipboard(targets: seq<string>)
      modifies this
      ensures View() == Requested(old(View()), targets)
    {
      var target := FindTarget(targets);
      if target.None? {
        return;
      }
      nextRequest := nextRequest + 1;
      var id := nextRequest;
      requests := requests[id := Request(generation, target.value)];
      actions := actions + [SendRequest(id, target.value)];
    }

    method BeginRemoteClipboard()
      modifies this
      ensures View() == Begun(old(View()))
    {
      generation := generation + 1;
      requests := map[];
    }

    method HandleClipboardToken(e: Event)
      requires e.Token?
      modifies this
      ensures View() == Next(old(View()), e)
    {
      hide ValidUtf8, WireText, PreferredTarget;
      if e.selection != SELECTION || !(ready && canReceive && present) {
        return;
      }
      if !e.claim {
        return;
      }
      BeginRemoteClipboard();
      if e.inline.Some? {
        var text := WireText(e.inline.value.0, e.inline.value.1);
        if text.Some? {
          ApplyRemoteClipboard(text.value, e.taken);
          return;
        }
      }
      RequestRemoteClipboard(e.targets);
    }

    method HandleClipboardData(e: Event)
      requires e.Data?
      modifies this
      ensures View() == Next(old(View()), e)
    {
      hide ValidUtf8, WireText, PreferredTarget;
      if e.selection != SELECTION || !(ready && canReceive && present) {
        return;
      }
      if !e.claim {
        return;
      }
      BeginRemoteClipboard();
      ghost var begun := View();
      for i := 0 to |TARGETS|
        invariant View() == begun
        invariant InlineText(e.items, 0) == InlineText(e.items, i)
      {
        var target := TARGETS[i];
        if target in e.items {
          var text := WireText(target, e.items[target]);
          if text.Some? {
            ApplyRemoteClipboard(text.value, e.taken);
            return;
          }
        }
      }
      RequestRemoteClipboard(e.targets);
    }

    method HandleClipboardContents(id: int, selection: string, content: Content, taken: bool)
      modifies this
      ensures View() == AfterContents(old(View()), id, selection, content, taken)
    {
      hide ValidUtf8, WireText;
      var request := if id in requests then Some(requests[id]) else None;
      requests := requests - {id};
      if request.None? || request.value.generation != generation || selection != SELECTION {
        return;
      }
      var text := WireText(request.value.target, content);
      if text.Some? {
        ApplyRemoteClipboard(text.value, taken);
      }
    }

    method HandleClipboardContentsNone(id: int)
      modifies this
      ensures View() == Next(old(View()), ContentsNone(id))
    {
      requests := requests - {id};
    }

    method HandleClipboardRequest(id: int, selection: string, target: string)
      modifies this
      ensures View() == AfterContentsRequest(old(View()), id, selection, target)
    {
      if !ready || !canSend || selection != SELECTION {
        actions := actions + [SendNone(id, selection)];
        return;
      }
      if target == "TARGETS" {
        actions := actions + [SendTargets(id)];
        return;
      }
      if target !in TARGETS || !known {
        actions := actions + [SendNone(id, selection)];
        return;
      }
      actions := actions + [SendContents(id, target, text)];
    }

    method HandleClipboardEnableSelections(selections: seq<string>)
      modifies this
      ensures View() == AfterEnableSelections(old(View()), selections)
    {
      if SELECTION !in selections {
        ready := false;
        return;
      }
      if present && (canSend || canReceive) {
        ready := true;
        if canSend && known {
          SendClipboardToken();
        }
      }
    }

    method HandleClipboardStatus(enabled: bool)
      modifies this
      ensures View() == AfterStatus(old(View()), enabled)
    {
      ready := enabled && present && (canSend || canReceive);
      if !ready {
        requests := map[];
        return;
      }
      if canSend && known {
        SendClipboardToken();
      }
    }
  }
}
