/** Both ends together: what a peer reads from the bytes our writer has written. */
module Connection {
  import opened Bytes
  import opened Rencodeplus
  import opened Framing
  import opened FramingProofs
  import Writer
  import Codec
  import RencodeplusProofs

  /** A packet that fits into a frame a reader accepts. */
  ghost predicate Sound(packet: seq<Value>) {
    Encodable(List(packet)) && Shallow(List(packet), MAX_DEPTH) && |Enc(List(packet))| <= MAX_PAYLOAD
  }

  /** The frame Send queues for a packet. */
  ghost function SendFrame(packet: seq<Value>): seq<byte>
    requires Encodable(List(packet))
  {
    EncodeHeader(FLAG_RENCODEPLUS + FLAG_FLUSH, |Enc(List(packet))|) + Enc(List(packet))
  }

  /** How Send makes the frame. */
  method MakeFrame(packet: seq<Value>) returns (r: Option<seq<byte>>)
    ensures r == if Encodable(List(packet)) then Some(SendFrame(packet)) else None
  {
    var payload := Codec.Encode(List(packet));
    r := if payload.None? then None
         else Some(EncodeHeader(FLAG_RENCODEPLUS + FLAG_FLUSH, |payload.value|) + payload.value);
  }

  /** What the peer should get. */
  ghost function Received(packet: seq<Value>): seq<Value>
    requires Encodable(List(packet))
  {
    Norm(List(packet)).items
  }

  function Inline(packet: seq<Value>): Message {
    Message(packet, [], {}, 0, FLAG_RENCODEPLUS + FLAG_FLUSH, map[], 0)
  }

  lemma InlineItems(packet: seq<Value>)
    ensures MainItems(Inline(packet)) == packet
  {
  }

  lemma InlineSendable(packet: seq<Value>, deflate: Deflate)
    requires Sound(packet)
    ensures Sendable(Inline(packet), deflate)
  {
    hide Enc, Shallow, Encodable, MainItems;
    InlineItems(packet);
    RencodeplusProofs.FirstByte(List(packet));
  }

  lemma InlineBytes(packet: seq<Value>, deflate: Deflate)
    requires Sound(packet) && Sendable(Inline(packet), deflate)
    ensures MessageBytes(Inline(packet), deflate) == SendFrame(packet)
  {
    hide Enc, Shallow, Encodable, MainItems, HeaderBytes;
    InlineItems(packet);
    var main := FrameBytes(MainFrame(Inline(packet)), deflate);
    assert [] + main == main;
  }

  lemma InlineArrival(packet: seq<Value>, deflate: Deflate)
    requires Sound(packet) && Sendable(Inline(packet), deflate)
    ensures Arrival(Inline(packet), deflate) == Received(packet)
  {
    hide Enc, Shallow, MainItems, Sendable, MainFrame;
  }

  lemma InlineMessage(packet: seq<Value>, deflate: Deflate)
    requires Sound(packet)
    ensures Sendable(Inline(packet), deflate)
    ensures MessageBytes(Inline(packet), deflate) == SendFrame(packet)
    ensures Arrival(Inline(packet), deflate) == Received(packet)
  {
    hide Sound, Sendable, MessageBytes, SendFrame, Arrival, Received, Inline;
    InlineSendable(packet, deflate);
    InlineBytes(packet, deflate);
    InlineArrival(packet, deflate);
  }

  // ---- the frames on the wire ----------------------------------------------

  function FramesOf(items: seq<Writer.Item>): seq<seq<byte>> {
    if items == [] then []
    else FramesOf(items[..|items| - 1]) + if items[|items| - 1].Frame? then [items[|items| - 1].data] else []
  }

  lemma {:induction false} DataIsFrames(items: seq<Writer.Item>)
    ensures Writer.Data(items) == Concat(FramesOf(items))
  {
    if items == [] {
    } else {
      var front, last := items[..|items| - 1], items[|items| - 1];
      DataIsFrames(front);
      if last.Frame? {
        ConcatSnoc(FramesOf(front), last.data);
      } else {
        assert FramesOf(front) + [] == FramesOf(front);
        assert Writer.Data(front) + [] == Writer.Data(front);
      }
    }
  }

  ghost predicate AllSound(packets: seq<seq<Value>>) {
    forall i :: 0 <= i < |packets| ==> Sound(packets[i])
  }

  ghost function SendFrames(packets: seq<seq<Value>>): seq<seq<byte>>
    requires AllSound(packets)
  {
    if packets == [] then [] else [SendFrame(packets[0])] + SendFrames(packets[1..])
  }

  ghost function AllReceived(packets: seq<seq<Value>>): seq<seq<Value>>
    requires AllSound(packets)
  {
    if packets == [] then [] else [Received(packets[0])] + AllReceived(packets[1..])
  }

  function Inlines(packets: seq<seq<Value>>): seq<Message> {
    seq(|packets|, i requires 0 <= i < |packets| => Inline(packets[i]))
  }

  lemma {:induction false} FramesAreMessages(packets: seq<seq<Value>>, deflate: Deflate)
    requires AllSound(packets)
    ensures forall i :: 0 <= i < |packets| ==> Sendable(Inlines(packets)[i], deflate)
    ensures StreamBytes(Inlines(packets), deflate) == Concat(SendFrames(packets))
    ensures Arrivals(Inlines(packets), deflate) == AllReceived(packets)
  {
    hide Sound, Sendable, MessageBytes, Arrival, SendFrame, Received, Inline;
    forall i | 0 <= i < |packets| ensures Sendable(Inlines(packets)[i], deflate) {
      InlineMessage(packets[i], deflate);
    }
    StreamFrom(Inlines(packets), deflate);
    if packets == [] {
    } else {
      assert Inlines(packets)[1..] == Inlines(packets[1..]);
      InlineMessage(packets[0], deflate);
      FramesAreMessages(packets[1..], deflate);
      assert SendFrames(packets)[1..] == SendFrames(packets[1..]);
    }
  }

  /** The beginning of a frame, cut off before its end, delivers nothing, and the
      reader notices unless nothing of it arrived. */
  lemma CutFrame(packet: seq<Value>, n: nat, inflate: Inflate)
    requires Sound(packet) && n < |SendFrame(packet)|
    ensures ReadAll(SendFrame(packet)[..n], NO_CHUNKS, Eof, inflate) ==
      Outcome([], if n == 0 then Clean else if n < HEADER_SIZE then Failed(BrokenHeader) else Failed(BrokenPayload))
  {
    hide Enc, ReadAll, HeaderBytes, Shallow, Encodable;
    var payload := Enc(List(packet));
    var h := Header(FLAG_RENCODEPLUS + FLAG_FLUSH, 0, 0, |payload|);
    RencodeplusProofs.FirstByte(List(packet));
    HeaderRoundTrip(h);
    ReadCases(SendFrame(packet)[..n], NO_CHUNKS, Eof, inflate);
    if n >= HEADER_SIZE {
      assert SendFrame(packet)[..n][..HEADER_SIZE] == HeaderBytes(h);
    }
  }

  /** However the goroutines interleaved: if the frames the write loop has finished
      with are those of `packets`, a peer reading what is on the wire delivers just
      these packets, in order, normalised. It sees a clean end if and only if no
      frame was torn after its first byte. */
  lemma PeerReceives(actions: seq<Writer.Action>, packets: seq<seq<Value>>, torn: seq<Value>, deflate: Deflate, inflate: Inflate)
    requires Inverse(deflate, inflate) && AllSound(packets)
    requires FramesOf(Writer.Behave(actions).written) == SendFrames(packets)
    requires Writer.Behave(actions).torn.Some? ==> Sound(torn) && Writer.Behave(actions).torn.value.0 == SendFrame(torn)
    ensures var o := ReadAll(Writer.Behave(actions).wire, NO_CHUNKS, Eof, inflate);
      && o.packets == AllReceived(packets)
      && (o.end == Clean <==> Writer.Fragment(Writer.Behave(actions)) == [])
  {
    hide Inverse, AllSound, Sound, SendFrames, AllReceived, SendFrame, ReadAll, Writer.Behave, Writer.Data, FramesOf;
    var s := Writer.Behave(actions);
    Writer.EveryRun(actions);
    DataIsFrames(s.written);
    FramesAreMessages(packets, deflate);
    var fragment := Writer.Fragment(s);
    ReadMessages(Inlines(packets), fragment, Eof, deflate, inflate);
    if s.torn.Some? {
      CutFrame(torn, s.torn.value.1, inflate);
    } else {
      ReadCases([], NO_CHUNKS, Eof, inflate);
    }
    assert AllReceived(packets) + [] == AllReceived(packets);
  }

  // ---- runs that send packets --------------------------------------------------

  /** The frame of some packet that fits. */
  ghost predicate IsSent(frame: seq<byte>) {
    exists p :: Sound(p) && frame == SendFrame(p)
  }

  /** Packets with the same frame are received alike. */
  lemma SameFrame(p: seq<Value>, q: seq<Value>)
    requires Sound(p) && Sound(q) && SendFrame(p) == SendFrame(q)
    ensures Received(p) == Received(q)
  {
    hide Enc, Norm, Shallow, Encodable, HeaderBytes;
    assert SendFrame(p)[HEADER_SIZE..] == Enc(List(p)) && SendFrame(q)[HEADER_SIZE..] == Enc(List(q));
    assert Enc(List(p)) + [] == Enc(List(q));
    RencodeplusProofs.PrefixFree(List(p), List(q), []);
  }

  /** A packet a frame is made of. */
  ghost function PacketOf(frame: seq<byte>): (p: seq<Value>)
    requires IsSent(frame)
    ensures Sound(p) && frame == SendFrame(p)
  {
    var p :| Sound(p) && frame == SendFrame(p);
    p
  }

  /** Every call of Send made the frame of a packet that fits. */
  ghost predicate SendsSound(actions: seq<Writer.Action>) {
    forall i :: 0 <= i < |actions| && actions[i].Send? ==> IsSent(actions[i].frame)
  }

  ghost predicate AllSent(items: seq<Writer.Item>) {
    forall i :: 0 <= i < |items| && items[i].Frame? ==> IsSent(items[i].data)
  }

  ghost predicate OnlySent(s: Writer.State) {
    && AllSent(s.accepted)
    && forall t: nat :: Writer.PcOf(s, t).Sending? ==> IsSent(Writer.PcOf(s, t).frame)
  }

  lemma OnlySentStep(s: Writer.State, a: Writer.Action)
    requires OnlySent(s) && (a.Send? ==> IsSent(a.frame))
    ensures OnlySent(Writer.Next(s, a))
  {
    hide IsSent, Writer.Next;
    Writer.NewAccepted(s, a);
    forall t: nat | Writer.PcOf(Writer.Next(s, a), t).Sending?
      ensures IsSent(Writer.PcOf(Writer.Next(s, a), t).frame)
    {
      NewSending(s, a, t);
    }
  }

  lemma NewSending(s: Writer.State, a: Writer.Action, t: nat)
    requires Writer.PcOf(Writer.Next(s, a), t).Sending?
    ensures Writer.PcOf(Writer.Next(s, a), t) == Writer.PcOf(s, t)
      || (a.Send? && Writer.PcOf(Writer.Next(s, a), t).frame == a.frame)
  {
  }

  lemma {:induction false} OnlySentRun(actions: seq<Writer.Action>)
    requires SendsSound(actions)
    ensures OnlySent(Writer.Behave(actions))
  {
    hide IsSent, Writer.Next;
    if actions == [] {
    } else {
      OnlySentRun(actions[..|actions| - 1]);
      OnlySentStep(Writer.Behave(actions[..|actions| - 1]), actions[|actions| - 1]);
    }
  }

  /** The packets of the frames among some items. */
  ghost function PacketsOf(items: seq<Writer.Item>): seq<seq<Value>>
    requires AllSent(items)
  {
    if items == [] then []
    else
      var last := items[|items| - 1];
      PacketsOf(items[..|items| - 1]) + if last.Frame? then [PacketOf(last.data)] else []
  }

  lemma {:induction false} SendFramesSnoc(packets: seq<seq<Value>>, p: seq<Value>)
    requires AllSound(packets) && Sound(p)
    ensures SendFrames(packets + [p]) == SendFrames(packets) + [SendFrame(p)]
  {
    hide Sound, SendFrame;
    if packets == [] {
      assert [p][1..] == [];
    } else {
      assert (packets + [p])[1..] == packets[1..] + [p];
      SendFramesSnoc(packets[1..], p);
    }
  }

  lemma {:induction false} PacketsFramed(items: seq<Writer.Item>)
    requires AllSent(items)
    ensures AllSound(PacketsOf(items)) && SendFrames(PacketsOf(items)) == FramesOf(items)
  {
    hide Sound, SendFrame, IsSent, SendFrames;
    if items == [] {
      assert SendFrames([]) == [] by { NoFrames(); }
    } else {
      var front, last := items[..|items| - 1], items[|items| - 1];
      PacketsFramed(front);
      if last.Frame? {
        SendFramesSnoc(PacketsOf(front), PacketOf(last.data));
      } else {
        assert PacketsOf(front) + [] == PacketsOf(front) && FramesOf(front) + [] == FramesOf(front);
      }
    }
  }

  lemma NoFrames()
    ensures SendFrames([]) == []
  {
  }

  lemma {:induction false} PacketsPrefix(items: seq<Writer.Item>, k: nat)
    requires AllSent(items) && k <= |items|
    ensures AllSent(items[..k]) && PacketsOf(items[..k]) <= PacketsOf(items)
  {
    hide IsSent;
    if k == |items| {
      assert items[..k] == items;
    } else {
      PacketsPrefix(items[..|items| - 1], k);
      assert items[..|items| - 1][..k] == items[..k];
    }
  }

  lemma {:induction false} ReceivedPrefix(a: seq<seq<Value>>, b: seq<seq<Value>>)
    requires AllSound(b) && a <= b
    ensures AllSound(a) && AllReceived(a) <= AllReceived(b)
  {
    hide Sound, Received;
    if a == [] {
    } else {
      assert a[1..] <= b[1..];
      ReceivedPrefix(a[1..], b[1..]);
    }
  }

  /** In every run that sends packets which fit, the peer gets exactly the packets the
      write loop has finished with, in the order in which they were accepted. */
  lemma PeerGets(actions: seq<Writer.Action>, deflate: Deflate, inflate: Inflate)
    requires Inverse(deflate, inflate) && SendsSound(actions)
    ensures var s := Writer.Behave(actions);
      var o := ReadAll(s.wire, NO_CHUNKS, Eof, inflate);
      && AllSent(s.written)
      && AllSound(PacketsOf(s.written)) && o.packets == AllReceived(PacketsOf(s.written))
      && (o.end == Clean <==> Writer.Fragment(s) == [])
  {
    hide Inverse, AllSound, Sound, IsSent, SendFrames, AllReceived, SendFrame, ReadAll, PacketsOf, Writer.Behave, Writer.Data, FramesOf;
    var s := Writer.Behave(actions);
    Writer.EveryRun(actions);
    OnlySentRun(actions);
    WrittenSent(s);
    PacketsFramed(s.written);
    PeerReceives(actions, PacketsOf(s.written), if s.torn.Some? then PacketOf(s.torn.value.0) else [], deflate, inflate);
  }

  lemma WrittenSent(s: Writer.State)
    requires Writer.InOrder(s) && AllSent(s.accepted)
    ensures AllSent(s.written)
    ensures s.torn.Some? ==> IsSent(s.torn.value.0)
  {
    hide IsSent, Writer.Data;
    forall i | 0 <= i < |s.written| ensures s.written[i] == s.accepted[i] {
    }
    if s.torn.Some? {
      assert Writer.Current(s) == [Writer.Frame(s.torn.value.0)];
      assert s.accepted[|s.written|] == Writer.Frame(s.torn.value.0);
    }
  }

  /** When Flush has returned nil, the peer has every packet accepted before its marker. */
  lemma FlushedArrive(actions: seq<Writer.Action>, id: nat, k: nat, deflate: Deflate, inflate: Inflate)
    requires Inverse(deflate, inflate) && SendsSound(actions)
    requires id in Writer.Behave(actions).flushed
    requires k < |Writer.Behave(actions).accepted| && Writer.Behave(actions).accepted[k] == Writer.Marker(id)
    ensures var s := Writer.Behave(actions);
      && AllSent(s.accepted[..k]) && AllSound(PacketsOf(s.accepted[..k]))
      && AllReceived(PacketsOf(s.accepted[..k])) <= ReadAll(s.wire, NO_CHUNKS, Eof, inflate).packets
  {
    hide Inverse, AllSound, IsSent, AllSent, AllReceived, ReadAll, PacketsOf, Writer.Behave, Writer.Data, Writer.Fragment;
    var s := Writer.Behave(actions);
    Writer.FlushIsHonest(actions, id);
    PeerGets(actions, deflate, inflate);
    assert s.accepted[..k] == s.written[..k];
    PacketsPrefix(s.written, k);
    ReceivedPrefix(PacketsOf(s.written[..k]), PacketsOf(s.written));
  }
}
