/** The X11 clipboard: what is asked of and answered to other clients, with
    incremental (INCR) transfers both ways. */
module Incr {
  import opened Bytes
  import opened Utf8

  const MAX_CLIPBOARD_BYTES: int := 16 * 1024 * 1024

  type WindowId = nat

  const NO_WINDOW: WindowId := 0

  /** The atoms the clipboard interns, and all others. */
  datatype Atom =
    | NoAtom
    | CLIPBOARD
    | GO_XPRA_CLIPBOARD
    | TARGETS
    | UTF8_STRING
    | PLAIN_UTF8
    | PLAIN
    | TEXT
    | STRING
    | ATOM
    | INCR
    | Other(id: nat)

  /** A property as it is stored on a window. */
  datatype Property = Property(kind: Atom, format: nat, data: seq<byte>)

  datatype Key = Key(window: WindowId, property: Atom)

  datatype Transfer = Transfer(target: Atom, data: seq<byte>, offset: nat)

  datatype State = State(text: seq<byte>, requested: Atom, receiving: bool, receiveData: seq<byte>, transfers: map<Key, Transfer>)

  /** What can happen to the clipboard. The flags and replies are the outcomes of
      the X requests made while handling it. */
  datatype Event =
    | SetText(text: seq<byte>)
    | OwnerChanged(selection: Atom, owner: WindowId)
    | SelectionNotify(requestor: WindowId, selection: Atom, property: Atom, ownedHere: bool, reply: Option<Property>)
    | SelectionRequest(owner: WindowId, selection: Atom, requestor: WindowId, target: Atom, property: Atom, watched: bool, stored: bool)
    | PropertyNotify(window: WindowId, atom: Atom, newValue: bool, reply: Option<Property>)

  /** What the clipboard sends: a request for the selection, a property put on
      another client's window, and the answer to a request. */
  datatype Message =
    | ConvertSelection(target: Atom)
    | ChangeProperty(key: Key, value: Property)
    | OfferTargets(key: Key, targets: seq<Atom>)
    | StartIncremental(key: Key, size: nat)
    | Notify(requestor: WindowId, property: Atom)

  datatype Outcome = Outcome(state: State, changed: Option<seq<byte>>, sent: seq<Message>)

  /** GetProperty of `longs` four-byte units. */
  function GetProperty(p: Property, longs: nat): Property {
    p.(data := p.data[..Min(|p.data|, 4 * longs)])
  }

  // ---- the client's view of one event ------------------------------------------

  /** Text that was read for a target, as the client takes it. */
  function Received(requested: Atom, data: seq<byte>): Option<seq<byte>> {
    if requested == STRING && !ValidUtf8(data) then Some(Latin1(data))
    else if ValidUtf8(data) then Some(data)
    else None
  }

  datatype TextError = NotUtf8 | TooLong | NotClaimed

  /** The text SetText takes. */
  predicate AcceptableText(text: seq<byte>) {
    ValidUtf8(text) && |text| <= MAX_CLIPBOARD_BYTES
  }

  function StopReceiving(s: State): State {
    s.(receiving := false, receiveData := [])
  }

  function AfterOwnerChanged(own: WindowId, s: State, e: Event): Outcome
    requires e.OwnerChanged?
  {
    if e.selection != CLIPBOARD || e.owner == own then Outcome(s, None, [])
    else if e.owner == NO_WINDOW then Outcome(StopReceiving(s), Some([]), [])
    else Outcome(StopReceiving(s).(requested := UTF8_STRING), None, [ConvertSelection(UTF8_STRING)])
  }

  function AfterSelectionNotify(own: WindowId, s: State, e: Event): Outcome
    requires e.SelectionNotify?
  {
    if e.requestor != own || e.selection != CLIPBOARD || e.ownedHere then Outcome(s, None, [])
    else if e.property == NoAtom then
      if s.requested != STRING then Outcome(s.(requested := STRING), None, [ConvertSelection(STRING)])
      else Outcome(s, None, [])
    else if e.reply.None? then Outcome(s, None, [])
    else if e.reply.value.kind == INCR then Outcome(s.(receiving := true, receiveData := []), None, [])
    else if e.reply.value.format != 8 || |e.reply.value.data| > MAX_CLIPBOARD_BYTES then Outcome(s, None, [])
    else Outcome(s, Received(s.requested, e.reply.value.data), [])
  }

  predicate TextTarget(a: Atom) {
    a in {UTF8_STRING, PLAIN_UTF8, PLAIN, TEXT, STRING}
  }

  const OFFERED: seq<Atom> := [TARGETS, UTF8_STRING, PLAIN_UTF8, PLAIN, TEXT, STRING]

  /** The key a request's answer is stored under. */
  function AnswerKey(e: Event): Key
    requires e.SelectionRequest?
  {
    Key(e.requestor, if e.property == NoAtom then e.target else e.property)
  }

  function AfterSelectionRequest(own: WindowId, max: nat, s: State, e: Event): Outcome
    requires e.SelectionRequest?
  {
    var key := AnswerKey(e);
    if e.owner != own || e.selection != CLIPBOARD then Outcome(s, None, [])
    else if e.target == TARGETS && e.stored then
      Outcome(s, None, [OfferTargets(key, OFFERED), Notify(e.requestor, key.property)])
    else if TextTarget(e.target) && |s.text| <= max && e.stored then
      Outcome(s, None, [ChangeProperty(key, Property(e.target, 8, s.text)), Notify(e.requestor, key.property)])
    else if TextTarget(e.target) && |s.text| > max && e.watched && e.stored then
      Outcome(s.(transfers := s.transfers[key := Transfer(e.target, s.text, 0)]), None,
              [StartIncremental(key, |s.text|), Notify(e.requestor, key.property)])
    else Outcome(s, None, [Notify(e.requestor, NoAtom)])
  }

  /** A property changed or was deleted: the next piece of an incoming transfer, or
      the request for the next piece of an outgoing one. */
  function AfterPropertyNotify(own: WindowId, max: nat, s: State, e: Event): Outcome
    requires e.PropertyNotify?
  {
    if e.window == own && e.atom == GO_XPRA_CLIPBOARD && s.receiving && e.newValue then AfterPiece(s, e.reply)
    else
      var key := Key(e.window, e.atom);
      if key !in s.transfers || e.newValue then Outcome(s, None, [])
      else
        var (piece, rest) := NextPiece(s.transfers[key], max);
        var transfers := if rest.Some? then s.transfers[key := rest.value] else s.transfers - {key};
        Outcome(s.(transfers := transfers), None, [ChangeProperty(key, Property(s.transfers[key].target, 8, piece))])
  }

  /** The receiver's side of a piece. */
  function AfterPiece(s: State, reply: Option<Property>): Outcome {
    if reply.None? then Outcome(StopReceiving(s), None, [])
    else if reply.value.data == [] then Outcome(StopReceiving(s), Received(s.requested, s.receiveData), [])
    else if reply.value.format != 8 || |s.receiveData| + |reply.value.data| > MAX_CLIPBOARD_BYTES then Outcome(StopReceiving(s), None, [])
    else Outcome(s.(receiveData := s.receiveData + reply.value.data), None, [])
  }

  /** The sender's side of a piece: what is put into the property, and what is left
      of the transfer. */
  function NextPiece(t: Transfer, max: nat): (seq<byte>, Option<Transfer>) {
    if t.offset >= |t.data| then ([], None)
    else
      var size := Min(|t.data| - t.offset, max);
      (t.data[t.offset..t.offset + size], Some(t.(offset := t.offset + size)))
  }

  function Next(own: WindowId, max: nat, s: State, e: Event): Outcome {
    if e.SetText? then Outcome(if AcceptableText(e.text) then s.(text := e.text) else s, None, [])
    else if e.OwnerChanged? then AfterOwnerChanged(own, s, e)
    else if e.SelectionNotify? then AfterSelectionNotify(own, s, e)
    else if e.SelectionRequest? then AfterSelectionRequest(own, max, s, e)
    else AfterPropertyNotify(own, max, s, e)
  }

  /** A run of events: the state it leads to, the changes it reports and the
      messages it sends, in order. */
  datatype Trace = Trace(state: State, changes: seq<seq<byte>>, sent: seq<Message>)

  function Run(own: WindowId, max: nat, s: State, es: seq<Event>): Trace
    decreases |es|
  {
    if es == [] then Trace(s, [], [])
    else
      var o := Next(own, max, s, es[0]);
      var rest := Run(own, max, o.state, es[1..]);
      Trace(rest.state, (if o.changed.Some? then [o.changed.value] else []) + rest.changes, o.sent + rest.sent)
  }

  // ---- invariant ------------------------------------------------------------------

  ghost predicate Sound(max: nat, s: State) {
    && AcceptableText(s.text)
    && |s.receiveData| <= MAX_CLIPBOARD_BYTES
    && (!s.receiving ==> s.receiveData == [])
    && forall k :: k in s.transfers ==> SoundTransfer(max, s.transfers[k])
  }

  /** Text that did not fit one request, and how much of it was handed over. */
  predicate SoundTransfer(max: nat, t: Transfer) {
    AcceptableText(t.data) && |t.data| > max && t.offset <= |t.data|
  }

  lemma SoundStep(own: WindowId, max: nat, s: State, e: Event)
    requires Sound(max, s)
    ensures Sound(max, Next(own, max, s, e).state)
    ensures Next(own, max, s, e).changed.Some? ==> ValidUtf8(Next(own, max, s, e).changed.value)
  {
    hide ValidUtf8, Latin1;
    if e.SelectionNotify? && e.reply.Some? {
      Latin1Runes(e.reply.value.data);
    }
    Latin1Runes(s.receiveData);
    assert ValidUtf8([]) by { EmptyValid(); }
  }

  /** Whatever happens, the clipboard stays sound and reports only valid text. */
  lemma {:induction false} SoundRun(own: WindowId, max: nat, s: State, es: seq<Event>)
    requires Sound(max, s)
    ensures Sound(max, Run(own, max, s, es).state)
    ensures forall i :: 0 <= i < |Run(own, max, s, es).changes| ==> ValidUtf8(Run(own, max, s, es).changes[i])
    decreases |es|
  {
    hide Next, Sound, ValidUtf8;
    if es == [] {
    } else {
      SoundStep(own, max, s, es[0]);
      SoundRun(own, max, Next(own, max, s, es[0]).state, es[1..]);
    }
  }

  lemma EmptyValid()
    ensures ValidUtf8([])
  {
  }

  // ---- outgoing transfers ---------------------------------------------------------

  /** The pieces a transfer is handed over in. */
  function Pieces(t: Transfer, max: nat): (ps: seq<seq<byte>>)
    requires max >= 1
    decreases |t.data| - t.offset
  {
    var (piece, rest) := NextPiece(t, max);
    if rest.None? then [piece] else [piece] + Pieces(rest.value, max)
  }

  /** Non-empty pieces within the limit that together are the rest of the text, then
      exactly one empty piece. */
  lemma {:induction false} PiecesExact(t: Transfer, max: nat)
    requires max >= 1 && t.offset <= |t.data|
    ensures var ps := Pieces(t, max);
      && |ps| >= 1 && ps[|ps| - 1] == []
      && (forall i :: 0 <= i < |ps| - 1 ==> 1 <= |ps[i]| <= max)
      && Concat(ps) == t.data[t.offset..]
    decreases |t.data| - t.offset
  {
    var (piece, rest) := NextPiece(t, max);
    if rest.Some? {
      PiecesExact(rest.value, max);
      assert t.data[t.offset..] == piece + t.data[rest.value.offset..];
    } else {
      assert Concat([[]]) == [] + Concat([]);
    }
  }

  /** What was put into a property, in order, of all that was sent. */
  function PutInto(k: Key, sent: seq<Message>): (ps: seq<seq<byte>>) {
    if sent == [] then []
    else (if sent[0].ChangeProperty? && sent[0].key == k then [sent[0].value.data] else []) + PutInto(k, sent[1..])
  }

  lemma {:induction false} PutIntoAppend(k: Key, a: seq<Message>, b: seq<Message>)
    ensures PutInto(k, a + b) == PutInto(k, a) + PutInto(k, b)
  {
    if a == [] {
      assert a + b == b;
    } else {
      assert (a + b)[1..] == a[1..] + b;
      PutIntoAppend(k, a[1..], b);
    }
  }

  predicate Deletes(k: Key, e: Event) {
    e.PropertyNotify? && Key(e.window, e.atom) == k && !e.newValue
  }

  /** How often the requestor of k asked for the next piece. */
  function Deletions(k: Key, es: seq<Event>): nat {
    if es == [] then 0 else (if Deletes(k, es[0]) then 1 else 0) + Deletions(k, es[1..])
  }

  /** No event of the run is a new request to be answered under k. */
  predicate NoRequestFor(k: Key, es: seq<Event>) {
    forall i :: 0 <= i < |es| ==> es[i].SelectionRequest? ==> AnswerKey(es[i]) != k
  }

  lemma HandsOverStep(own: WindowId, max: nat, s: State, e: Event, k: Key)
    requires k in s.transfers && (e.SelectionRequest? ==> AnswerKey(e) != k)
    ensures var o := Next(own, max, s, e);
      if Deletes(k, e) then
        var (piece, rest) := NextPiece(s.transfers[k], max);
        && PutInto(k, o.sent) == [piece]
        && (if rest.Some? then k in o.state.transfers && o.state.transfers[k] == rest.value else k !in o.state.transfers)
      else PutInto(k, o.sent) == [] && k in o.state.transfers && o.state.transfers[k] == s.transfers[k]
  {
    hide ValidUtf8, Latin1, Received, PutInto;
    PutIntoShort(k, Next(own, max, s, e).sent);
  }

  lemma PutIntoShort(k: Key, sent: seq<Message>)
    requires |sent| <= 2
    ensures (forall i :: 0 <= i < |sent| ==> !(sent[i].ChangeProperty? && sent[i].key == k)) ==> PutInto(k, sent) == []
    ensures |sent| == 1 && sent[0].ChangeProperty? && sent[0].key == k ==> PutInto(k, sent) == [sent[0].value.data]
  {
    if |sent| > 0 {
      assert |sent[1..]| <= 1;
      if |sent| == 2 {
        assert sent[1..] == [sent[1]];
        assert [sent[1]][1..] == [];
      }
    }
  }

  /** Once a transfer is over, nothing more is put into the property. */
  lemma {:induction false} AfterTransfer(own: WindowId, max: nat, s: State, es: seq<Event>, k: Key)
    requires k !in s.transfers && NoRequestFor(k, es)
    ensures PutInto(k, Run(own, max, s, es).sent) == []
    decreases |es|
  {
    hide ValidUtf8, Latin1, Received;
    if es == [] {
    } else {
      var o := Next(own, max, s, es[0]);
      PutIntoAppend(k, o.sent, Run(own, max, o.state, es[1..]).sent);
      AfterTransferStep(own, max, s, es[0], k);
      AfterTransfer(own, max, o.state, es[1..], k);
    }
  }

  lemma AfterTransferStep(own: WindowId, max: nat, s: State, e: Event, k: Key)
    requires k !in s.transfers && (e.SelectionRequest? ==> AnswerKey(e) != k)
    ensures PutInto(k, Next(own, max, s, e).sent) == [] && k !in Next(own, max, s, e).state.transfers
  {
    hide ValidUtf8, Latin1, Received, NextPiece, PutInto;
    PutIntoShort(k, Next(own, max, s, e).sent);
  }

  /** Whatever happens in between, the requestor gets the pieces of the text as it
      was when the transfer began, one for every time it asks, and nothing else. */
  lemma {:induction false} HandsOverPieces(own: WindowId, max: nat, s: State, es: seq<Event>, k: Key)
    requires max >= 1 && k in s.transfers && NoRequestFor(k, es)
    ensures var ps := Pieces(s.transfers[k], max);
      PutInto(k, Run(own, max, s, es).sent) == ps[..Min(|ps|, Deletions(k, es))]
    decreases |es|
  {
    var ps := Pieces(s.transfers[k], max);
    if es == [] {
    } else {
      var o := Next(own, max, s, es[0]);
      PutIntoAppend(k, o.sent, Run(own, max, o.state, es[1..]).sent);
      HandsOverStep(own, max, s, es[0], k);
      if k in o.state.transfers {
        HandsOverPieces(own, max, o.state, es[1..], k);
      } else {
        AfterTransfer(own, max, o.state, es[1..], k);
      }
    }
  }

  // ---- incoming transfers ---------------------------------------------------------

  /** A new value of the property this client asked the selection to be put into. */
  predicate IsPiece(own: WindowId, e: Event) {
    e.PropertyNotify? && e.window == own && e.atom == GO_XPRA_CLIPBOARD && e.newValue
  }

  /** Any other event, except a new owner of the clipboard or an answer to a new
      request for it. */
  predicate Unrelated(own: WindowId, e: Event) {
    && !IsPiece(own, e)
    && (e.OwnerChanged? ==> e.selection != CLIPBOARD || e.owner == own)
    && (e.SelectionNotify? ==> e.requestor != own || e.selection != CLIPBOARD || e.ownedHere)
  }

  /** The run brings exactly these pieces, each read with the client's own limit. */
  predicate Brings(own: WindowId, max: nat, target: Atom, es: seq<Event>, ps: seq<seq<byte>>)
    decreases |es|
  {
    if es == [] then ps == []
    else if IsPiece(own, es[0]) then
      && ps != []
      && es[0].reply == Some(GetProperty(Property(target, 8, ps[0]), max / 4 + 1))
      && Brings(own, max, target, es[1..], ps[1..])
    else Unrelated(own, es[0]) && Brings(own, max, target, es[1..], ps)
  }

  /** Pieces within the limit, none empty but the last. */
  predicate WellFormedPieces(max: nat, ps: seq<seq<byte>>) {
    |ps| >= 1 && ps[|ps| - 1] == [] && forall i :: 0 <= i < |ps| - 1 ==> 1 <= |ps[i]| <= max
  }

  lemma UnrelatedStep(own: WindowId, max: nat, s: State, e: Event)
    requires Unrelated(own, e)
    ensures var o := Next(own, max, s, e);
      o.changed.None? && o.state.receiving == s.receiving && o.state.receiveData == s.receiveData && o.state.requested == s.requested
  {
    hide ValidUtf8, Latin1, NextPiece;
  }

  /** Nothing is reported when nothing is received. */
  lemma {:induction false} Idle(own: WindowId, max: nat, s: State, target: Atom, es: seq<Event>)
    requires Brings(own, max, target, es, [])
    ensures var r := Run(own, max, s, es); r.changes == [] && r.state.receiving == s.receiving
    decreases |es|
  {
    hide Next;
    if es == [] {
    } else {
      UnrelatedStep(own, max, s, es[0]);
      Idle(own, max, Next(own, max, s, es[0]).state, target, es[1..]);
    }
  }

  /** A receiver fed the pieces of a text reports that text, once, and is done. */
  lemma {:induction false} Assembles(own: WindowId, max: nat, s: State, target: Atom, es: seq<Event>, ps: seq<seq<byte>>)
    requires s.receiving && WellFormedPieces(max, ps) && Brings(own, max, target, es, ps)
    requires |s.receiveData| + |Concat(ps)| <= MAX_CLIPBOARD_BYTES
    ensures var r := Run(own, max, s, es);
      var text := Received(s.requested, s.receiveData + Concat(ps));
      && r.changes == (if text.Some? then [text.value] else [])
      && !r.state.receiving
    decreases |es|
  {
    hide ValidUtf8, Latin1, Received, NextPiece;
    if es == [] {
    } else {
      var o := Next(own, max, s, es[0]);
      if IsPiece(own, es[0]) {
        PieceStep(own, max, s, es[0], target, ps[0]);
        if ps[0] == [] {
          assert |ps| == 1;
          assert ps[1..] == [] && s.receiveData + Concat(ps) == s.receiveData;
          Idle(own, max, o.state, target, es[1..]);
        } else {
          assert s.receiveData + Concat(ps) == (s.receiveData + ps[0]) + Concat(ps[1..]);
          Assembles(own, max, o.state, target, es[1..], ps[1..]);
        }
      } else {
        UnrelatedStep(own, max, s, es[0]);
        Assembles(own, max, o.state, target, es[1..], ps);
      }
    }
  }

  lemma PieceStep(own: WindowId, max: nat, s: State, e: Event, target: Atom, p: seq<byte>)
    requires s.receiving && IsPiece(own, e) && |p| <= max
    requires e.reply == Some(GetProperty(Property(target, 8, p), max / 4 + 1))
    requires |s.receiveData| + |p| <= MAX_CLIPBOARD_BYTES
    ensures Next(own, max, s, e)
         == if p == [] then Outcome(StopReceiving(s), Received(s.requested, s.receiveData), [])
            else Outcome(s.(receiveData := s.receiveData + p), None, [])
  {
    hide ValidUtf8, Latin1, Received;
    assert 4 * (max / 4 + 1) >= max;
    assert p[..|p|] == p;
  }

  /** From one clipboard to another: the text held when the request came in is the
      text reported at the other end, whatever else both clients do meanwhile. */
  lemma TransferDelivers(sender: WindowId, receiver: WindowId, max: nat, s: State, request: Event, es: seq<Event>, r: State, notify: Event, rs: seq<Event>)
    requires max >= 1 && Sound(max, s) && |s.text| > max
    requires request.SelectionRequest? && request.owner == sender && request.selection == CLIPBOARD
    requires TextTarget(request.target) && request.watched && request.stored
    requires NoRequestFor(AnswerKey(request), es)
    requires notify.SelectionNotify? && notify.requestor == receiver && notify.selection == CLIPBOARD && !notify.ownedHere
    requires notify.property != NoAtom && notify.reply.Some? && notify.reply.value.kind == INCR
    requires Deletions(AnswerKey(request), es) >= |Pieces(Transfer(request.target, s.text, 0), max)|
    requires Brings(receiver, max, request.target, rs, PutInto(AnswerKey(request), Run(sender, max, Next(sender, max, s, request).state, es).sent))
    ensures Run(receiver, max, r, [notify] + rs).changes == [s.text]
  {
    hide ValidUtf8, Latin1, Pieces, Brings, PutInto, NextPiece;
    var k := AnswerKey(request);
    var t := Transfer(request.target, s.text, 0);
    var s1 := Next(sender, max, s, request).state;
    assert k in s1.transfers && s1.transfers[k] == t;
    HandsOverPieces(sender, max, s1, es, k);
    PiecesExact(t, max);
    var ps := Pieces(t, max);
    assert ps[..|ps|] == ps && s.text[0..] == s.text;
    var r1 := Next(receiver, max, r, notify).state;
    assert ([notify] + rs)[1..] == rs;
    assert [] + s.text == s.text;
    Assembles(receiver, max, r1, request.target, rs, ps);
  }

  /** Text within the limit arrives whole. */
  lemma WholeDelivers(sender: WindowId, receiver: WindowId, max: nat, s: State, request: Event, r: State, notify: Event)
    requires Sound(max, s) && |s.text| <= max
    requires request.SelectionRequest? && request.owner == sender && request.selection == CLIPBOARD
    requires TextTarget(request.target) && request.stored
    requires notify.SelectionNotify? && notify.requestor == receiver && notify.selection == CLIPBOARD && !notify.ownedHere
    requires notify.property != NoAtom
    requires notify.reply == Some(GetProperty(Property(request.target, 8, s.text), MAX_CLIPBOARD_BYTES / 4 + 1))
    ensures Next(sender, max, s, request).sent
         == [ChangeProperty(AnswerKey(request), Property(request.target, 8, s.text)), Notify(request.requestor, AnswerKey(request).property)]
    ensures Next(receiver, max, r, notify).changed == Some(s.text)
  {
    hide ValidUtf8, Latin1;
    assert s.text[..|s.text|] == s.text;
  }

  // ---- a change of owner ------------------------------------------------------------

  /** Once nothing is being received, no piece that still comes in is reported. */
  lemma {:induction false} StalePieces(own: WindowId, max: nat, s: State, es: seq<Event>)
    requires !s.receiving && forall i :: 0 <= i < |es| ==> es[i].PropertyNotify? || Unrelated(own, es[i])
    ensures Run(own, max, s, es).changes == [] && !Run(own, max, s, es).state.receiving
    decreases |es|
  {
    hide Next, Unrelated;
    if es == [] {
    } else {
      StalePiece(own, max, s, es[0]);
      StalePieces(own, max, Next(own, max, s, es[0]).state, es[1..]);
    }
  }

  lemma StalePiece(own: WindowId, max: nat, s: State, e: Event)
    requires !s.receiving && (e.PropertyNotify? || Unrelated(own, e))
    ensures Next(own, max, s, e).changed.None? && !Next(own, max, s, e).state.receiving
  {
    hide ValidUtf8, Latin1, NextPiece;
  }

  /** When another client takes or drops the clipboard, a transfer under way is given up:
      whatever its owner still sends is ignored. Dropping it is reported as empty text. */
  lemma TransferGivenUp(own: WindowId, max: nat, s: State, owner: WindowId, es: seq<Event>)
    requires owner != own
    requires forall i :: 0 <= i < |es| ==> es[i].PropertyNotify? || Unrelated(own, es[i])
    ensures Run(own, max, s, [OwnerChanged(CLIPBOARD, owner)] + es).changes == if owner == NO_WINDOW then [[]] else []
  {
    var e := OwnerChanged(CLIPBOARD, owner);
    assert ([e] + es)[1..] == es && ([e] + es)[0] == e;
    StalePieces(own, max, Next(own, max, s, e).state, es);
    var reported: seq<seq<byte>> := [[]];
    assert reported + [] == reported;
  }

  /** The request for the selection that a change of owner makes a client send, as the new
      owner gets it. */
  function Asked(receiver: WindowId, max: nat, r: State, owner: WindowId, watched: bool): Option<Event> {
    var sent := Next(receiver, max, r, OwnerChanged(CLIPBOARD, owner)).sent;
    if |sent| != 1 || !sent[0].ConvertSelection? then None
    else Some(SelectionRequest(owner, CLIPBOARD, receiver, sent[0].target, GO_XPRA_CLIPBOARD, watched, true))
  }

  lemma NewOwnerAsked(receiver: WindowId, max: nat, r: State, owner: WindowId, watched: bool)
    requires owner != receiver && owner != NO_WINDOW
    ensures Asked(receiver, max, r, owner, watched).Some?
    ensures TextTarget(Asked(receiver, max, r, owner, watched).value.target)
    ensures Next(receiver, max, r, OwnerChanged(CLIPBOARD, owner)).changed.None?
  {
  }

  /** From setting the text on one client to the report on another: that one asks the new
      owner, and gets text within the limit at once. */
  lemma SetDelivers(sender: WindowId, receiver: WindowId, max: nat, s: State, text: seq<byte>, r: State, watched: bool)
    requires sender != receiver && sender != NO_WINDOW && Sound(max, s)
    requires ValidUtf8(text) && |text| <= MAX_CLIPBOARD_BYTES && |text| <= max
    ensures Asked(receiver, max, r, sender, watched).Some?
    ensures var answer := Next(sender, max, Next(sender, max, s, SetText(text)).state, Asked(receiver, max, r, sender, watched).value).sent;
      && |answer| == 2 && answer[0].ChangeProperty? && answer[1].Notify?
      && answer[0].key == Key(receiver, answer[1].property) && answer[1].requestor == receiver
      && Next(receiver, max, Next(receiver, max, r, OwnerChanged(CLIPBOARD, sender)).state,
              SelectionNotify(receiver, CLIPBOARD, answer[1].property, false,
                              Some(GetProperty(answer[0].value, MAX_CLIPBOARD_BYTES / 4 + 1)))).changed == Some(text)
  {
    hide ValidUtf8, Latin1, Next;
    NewOwnerAsked(receiver, max, r, sender, watched);
    var request := Asked(receiver, max, r, sender, watched).value;
    var s1 := Next(sender, max, s, SetText(text)).state;
    TextSet(sender, max, s, text);
    var r1 := Next(receiver, max, r, OwnerChanged(CLIPBOARD, sender)).state;
    var notify := SelectionNotify(receiver, CLIPBOARD, GO_XPRA_CLIPBOARD, false,
                                  Some(GetProperty(Property(request.target, 8, text), MAX_CLIPBOARD_BYTES / 4 + 1)));
    WholeDelivers(sender, receiver, max, s1, request, r1, notify);
  }

  lemma TextSet(own: WindowId, max: nat, s: State, text: seq<byte>)
    requires Sound(max, s) && ValidUtf8(text) && |text| <= MAX_CLIPBOARD_BYTES
    ensures Next(own, max, s, SetText(text)).state == s.(text := text) && Sound(max, s.(text := text))
  {
    hide ValidUtf8;
  }

  /** Longer text it gets piece by piece, and reports it once it has all of them. */
  lemma SetTransfers(sender: WindowId, receiver: WindowId, max: nat, s: State, text: seq<byte>, es: seq<Event>, r: State, notify: Event, rs: seq<Event>)
    requires sender != receiver && sender != NO_WINDOW && Sound(max, s) && max >= 1
    requires ValidUtf8(text) && |text| <= MAX_CLIPBOARD_BYTES && |text| > max
    requires notify.SelectionNotify? && notify.requestor == receiver && notify.selection == CLIPBOARD && !notify.ownedHere
    requires notify.property != NoAtom && notify.reply.Some? && notify.reply.value.kind == INCR
    ensures Asked(receiver, max, r, sender, true).Some?
    ensures var request := Asked(receiver, max, r, sender, true).value;
      var s1 := Next(sender, max, Next(sender, max, s, SetText(text)).state, request);
      var r1 := Next(receiver, max, r, OwnerChanged(CLIPBOARD, sender)).state;
      && s1.sent == [StartIncremental(AnswerKey(request), |text|), Notify(receiver, GO_XPRA_CLIPBOARD)]
      && (&& NoRequestFor(AnswerKey(request), es)
          && Deletions(AnswerKey(request), es) >= |Pieces(Transfer(request.target, text, 0), max)|
          && Brings(receiver, max, request.target, rs, PutInto(AnswerKey(request), Run(sender, max, s1.state, es).sent))
          ==> Run(receiver, max, r1, [notify] + rs).changes == [text])
  {
    hide ValidUtf8, Latin1, Next, Run, Pieces, Brings, PutInto, Deletions, NoRequestFor;
    NewOwnerAsked(receiver, max, r, sender, true);
    TextSet(sender, max, s, text);
    var request := Asked(receiver, max, r, sender, true).value;
    var before := Next(sender, max, s, SetText(text)).state;
    var r1 := Next(receiver, max, r, OwnerChanged(CLIPBOARD, sender)).state;
    LongAnswer(sender, max, before, request);
    var after := Next(sender, max, before, request).state;
    if && NoRequestFor(AnswerKey(request), es)
       && Deletions(AnswerKey(request), es) >= |Pieces(Transfer(request.target, text, 0), max)|
       && Brings(receiver, max, request.target, rs, PutInto(AnswerKey(request), Run(sender, max, after, es).sent))
    {
      TransferDelivers(sender, receiver, max, before, request, es, r1, notify, rs);
    }
  }

  lemma LongAnswer(own: WindowId, max: nat, s: State, request: Event)
    requires request.SelectionRequest? && request.owner == own && request.selection == CLIPBOARD
    requires TextTarget(request.target) && request.watched && request.stored && |s.text| > max
    ensures Next(own, max, s, request).sent
         == [StartIncremental(AnswerKey(request), |s.text|), Notify(request.requestor, AnswerKey(request).property)]
  {
    hide ValidUtf8, Latin1;
  }

  // ---- what is asked for, answered and read -----------------------------------------

  /** GetProperty gives the beginning of a property, all of it if that is no longer than
      asked for. */
  lemma PropertyRead(p: Property, longs: nat)
    ensures var got := GetProperty(p, longs);
      && got.kind == p.kind && got.format == p.format && got.data <= p.data
      && |got.data| <= 4 * longs && (|p.data| <= 4 * longs ==> got.data == p.data)
      && (|p.data| > 4 * longs ==> |got.data| == 4 * longs)
  {
  }

  /** A new owner is asked for UTF-8; if it has none, for STRING, and then for nothing
      more. */
  lemma AskedInOrder(own: WindowId, max: nat, s: State, owner: WindowId, again: bool)
    requires owner != own && owner != NO_WINDOW
    ensures var refusal := SelectionNotify(own, CLIPBOARD, NoAtom, false, None);
      var r := Run(own, max, s, [OwnerChanged(CLIPBOARD, owner)] + [refusal] + if again then [refusal] else []);
      && r.sent == [ConvertSelection(UTF8_STRING), ConvertSelection(STRING)] && r.changes == []
      && r.state == s.(requested := STRING, receiving := false, receiveData := [])
  {
    hide ValidUtf8, Latin1;
    var e := OwnerChanged(CLIPBOARD, owner);
    var refusal := SelectionNotify(own, CLIPBOARD, NoAtom, false, None);
    var s1 := Next(own, max, s, e).state;
    var s2 := Next(own, max, s1, refusal).state;
    assert s2 == s.(requested := STRING, receiving := false, receiveData := []);
    assert Next(own, max, s2, refusal) == Outcome(s2, None, []);
    hide Next;
    RunTwice(own, max, s, e, refusal, if again then [refusal] else []);
    assert again ==> [refusal][1..] == [];
    assert Run(own, max, s2, if again then [refusal] else []) == Trace(s2, [], []);
  }

  lemma RunTwice(own: WindowId, max: nat, s: State, a: Event, b: Event, es: seq<Event>)
    ensures var o := Next(own, max, s, a);
      var p := Next(own, max, o.state, b);
      var r := Run(own, max, p.state, es);
      Run(own, max, s, [a] + [b] + es)
      == Trace(r.state,
               (if o.changed.Some? then [o.changed.value] else []) + ((if p.changed.Some? then [p.changed.value] else []) + r.changes),
               o.sent + (p.sent + r.sent))
  {
    hide Next;
    assert ([a] + [b] + es)[1..] == [b] + es && ([b] + es)[1..] == es;
  }

  /** An answer is read as UTF-8; one that is not, to a request for STRING, is read as
      Latin-1, each byte a character; to any other it is ignored. So is text past 16 MiB. */
  lemma AnswerRead(own: WindowId, max: nat, s: State, property: Atom, p: Property)
    requires property != NoAtom && p.kind != INCR && p.format == 8
    ensures var o := Next(own, max, s, SelectionNotify(own, CLIPBOARD, property, false, Some(GetProperty(p, MAX_CLIPBOARD_BYTES / 4 + 1))));
      && o.state == s && o.sent == []
      && (|p.data| > 16 * 1024 * 1024 ==> o.changed.None?)
      && (|p.data| <= 16 * 1024 * 1024 && ValidUtf8(p.data) ==> o.changed == Some(p.data))
      && (|p.data| <= 16 * 1024 * 1024 && !ValidUtf8(p.data) ==>
            if s.requested == STRING then o.changed.Some? && ValidUtf8(o.changed.value) && Runes(o.changed.value) == p.data
            else o.changed.None?)
  {
    hide ValidUtf8, Latin1, Runes, GetProperty;
    PropertyRead(p, MAX_CLIPBOARD_BYTES / 4 + 1);
    Latin1Runes(p.data);
  }

  /** A request for this client's text, or for its targets, is answered under the property
      it names, or its target if it names none; one that cannot be met is turned down. */
  lemma RequestAnswered(own: WindowId, max: nat, s: State, requestor: WindowId, target: Atom, property: Atom, watched: bool, stored: bool)
    ensures var o := Next(own, max, s, SelectionRequest(own, CLIPBOARD, requestor, target, property, watched, stored));
      var under := if property == NoAtom then target else property;
      var key := Key(requestor, under);
      var text := target in [UTF8_STRING, PLAIN_UTF8, PLAIN, TEXT, STRING];
      && o.changed.None?
      && (stored && target == TARGETS ==>
            o == Outcome(s, None, [OfferTargets(key, [TARGETS, UTF8_STRING, PLAIN_UTF8, PLAIN, TEXT, STRING]), Notify(requestor, under)]))
      && (stored && text && |s.text| <= max ==>
            o == Outcome(s, None, [ChangeProperty(key, Property(target, 8, s.text)), Notify(requestor, under)]))
      && (stored && text && |s.text| > max && watched ==>
            && o.sent == [StartIncremental(key, |s.text|), Notify(requestor, under)]
            && o.state == s.(transfers := s.transfers[key := Transfer(target, s.text, 0)]))
      && (!stored || (target != TARGETS && (!text || (|s.text| > max && !watched))) ==>
            o == Outcome(s, None, [Notify(requestor, NoAtom)]))
  {
    hide ValidUtf8, Latin1;
  }

  // ---- the clipboard object ---------------------------------------------------------

  class Clipboard {
    const window: WindowId
    const maxImageBytes: nat
    var text: seq<byte>
    var requested: Atom
    var receiving: bool
    var receiveData: seq<byte>
    var transfers: map<Key, Transfer>

    /** A new clipboard asks for the selection at once. */
    constructor (window: WindowId, maxImageBytes: nat)
      ensures this.window == window && this.maxImageBytes == maxImageBytes
      ensures View() == State([], UTF8_STRING, false, [], map[])
    {
      this.window, this.maxImageBytes := window, maxImageBytes;
      text, requested, receiving, receiveData, transfers := [], UTF8_STRING, false, [], map[];
    }

    ghost function View(): State
      reads this
    {
      State(text, requested, receiving, receiveData, transfers)
    }

    /** claimed says whether the server then lets the window own the selection; the text
        is kept even if it does not. */
    method SetText(text: seq<byte>, claimed: bool) returns (err: Option<TextError>)
      modifies this
      ensures err.None? <==> AcceptableText(text) && claimed
      ensures err == Some(NotClaimed) <==> AcceptableText(text) && !claimed
      ensures err == Some(TooLong) ==> ValidUtf8(text) && |text| > MAX_CLIPBOARD_BYTES
      ensures Outcome(View(), None, []) == Next(window, maxImageBytes, old(View()), Event.SetText(text))
    {
      if !ValidUtf8(text) {
        return Some(NotUtf8);
      }
      if |text| > MAX_CLIPBOARD_BYTES {
        return Some(TooLong);
      }
      this.text := text;
      return if claimed then None else Some(NotClaimed);
    }

    method OwnerChanged(e: Event) returns (changed: Option<seq<byte>>, sent: seq<Message>)
      requires e.OwnerChanged?
      modifies this
      ensures Outcome(View(), changed, sent) == Next(window, maxImageBytes, old(View()), e)
    {
      changed, sent := None, [];
      if e.selection != CLIPBOARD || e.owner == window {
        return;
      }
      receiving, receiveData := false, [];
      if e.owner == NO_WINDOW {
        return Some([]), [];
      }
      sent := Request(UTF8_STRING);
    }

    method Request(target: Atom) returns (sent: seq<Message>)
      modifies this
      ensures View() == old(View()).(requested := target) && sent == [ConvertSelection(target)]
    {
      requested := target;
      sent := [ConvertSelection(target)];
    }

    method SelectionNotify(e: Event) returns (changed: Option<seq<byte>>, sent: seq<Message>)
      requires e.SelectionNotify?
      modifies this
      ensures Outcome(View(), changed, sent) == Next(window, maxImageBytes, old(View()), e)
    {
      changed, sent := None, [];
      if e.requestor != window || e.selection != CLIPBOARD || e.ownedHere {
        return;
      }
      if e.property == NoAtom {
        if requested != STRING {
          sent := Request(STRING);
        }
        return;
      }
      if e.reply.None? {
        return;
      }
      var reply := e.reply.value;
      if reply.kind == INCR {
        receiving, receiveData := true, [];
        return;
      }
      if reply.format != 8 || |reply.data| > MAX_CLIPBOARD_BYTES {
        return;
      }
      changed := Received(requested, reply.data);
    }

    method SelectionRequest(e: Event) returns (sent: seq<Message>)
      requires e.SelectionRequest?
      modifies this
      ensures Outcome(View(), None, sent) == Next(window, maxImageBytes, old(View()), e)
    {
      sent := [];
      if e.owner != window || e.selection != CLIPBOARD {
        return;
      }
      var property := if e.property == NoAtom then e.target else e.property;
      var key := Key(e.requestor, property);
      var succeeded := false;
      if e.target == TARGETS {
        succeeded := e.stored;
        if succeeded {
          sent := [OfferTargets(key, OFFERED)];
        }
      } else if TextTarget(e.target) {
        var data := text;
        if |data| <= maxImageBytes {
          succeeded := e.stored;
          if succeeded {
            sent := [ChangeProperty(key, Property(e.target, 8, data))];
          }
        } else if e.watched {
          succeeded := e.stored;
          if succeeded {
            sent := [StartIncremental(key, |data|)];
            transfers := transfers[key := Transfer(e.target, data, 0)];
          }
        }
      }
      if !succeeded {
        property := NoAtom;
      }
      sent := sent + [Notify(e.requestor, property)];
    }

    method PropertyNotify(e: Event) returns (changed: Option<seq<byte>>, sent: seq<Message>)
      requires e.PropertyNotify? && maxImageBytes >= 1 && Sound(maxImageBytes, View())
      modifies this
      ensures Outcome(View(), changed, sent) == Next(window, maxImageBytes, old(View()), e)
    {
      hide ValidUtf8, Latin1;
      changed, sent := None, [];
      if e.window == window && e.atom == GO_XPRA_CLIPBOARD && receiving && e.newValue {
        if e.reply.None? {
          receiving, receiveData := false, [];
          return;
        }
        var value := e.reply.value.data;
        if |value| == 0 {
          var data := receiveData;
          receiving, receiveData := false, [];
          return Received(requested, data), [];
        }
        if e.reply.value.format != 8 || |receiveData| + |value| > MAX_CLIPBOARD_BYTES {
          receiving, receiveData := false, [];
          return;
        }
        receiveData := receiveData + value;
        return;
      }
      var key := Key(e.window, e.atom);
      if key !in transfers || e.newValue {
        return;
      }
      var transfer := transfers[key];
      var remaining := |transfer.data| - transfer.offset;
      if remaining == 0 {
        sent := [ChangeProperty(key, Property(transfer.target, 8, []))];
        transfers := transfers - {key};
        return;
      }
      var size := Min(remaining, maxImageBytes);
      var chunk := transfer.data[transfer.offset..transfer.offset + size];
      transfers := transfers[key := transfer.(offset := transfer.offset + size)];
      sent := [ChangeProperty(key, Property(transfer.target, 8, chunk))];
    }
  }
}
