# Verification of the go-xpra client's core

A Dafny model of the parts of the go-xpra remote-desktop client that are pure logic, with proofs of
what they promise. Every operation the repository writes with loops and updated fields is a method over
the same fields, proved against a function; the theorems are about those functions.

- `Bytes`, `Utf8`: bytes, big-endian and decimal numbers, UTF-8 validity and Latin-1.
- `Rencodeplus`, `RencodeplusProofs`, `RencodeplusNormal`, `Codec`, `OrderedDict`: the wire format, its
  encoder and its position-advancing decoder, and that they are inverse up to a stated normal form.
- `RencodeplusWire`, `RencodeplusSize`: the format as a grammar of every form a peer may choose; the decoder
  accepts exactly it, and the encoder picks a shortest form.
- `Floats`: what floating-point bits stand for, and that widening keeps it.
- `Framing`, `FramingProofs`, `Reader`: headers, out-of-band chunks, and the read loop; end to end, the
  reader delivers exactly what a sender framed.
- `Writer`, `Connection`: Send, Flush, Close, fail and the write loop as interleaved atomic steps, and what
  a peer reads from the bytes they leave behind.
- `EventQueue`, `EventRelay`: the coalescing queue, and any number of producers with one relay around it.
- `Pixels`, `Painting`, `X11Painting`: clipping, conversion between strides, and how painting a flat buffer
  (Wayland) or uploading bands (X11) refines a two-dimensional picture.
- `Incr`: the X11 clipboard with incremental transfers (section 2.7.2 of the ICCCM) in both directions.
- `WindowTable`: the client's window tables, minimize reports and focus reports over all runs.
- `Mmap`, `Draws`: the shared-memory token and chunks, and the handling of draw packets.
- `ClipboardSync`: the client's clipboard requests, generations and known text.
- `XkbText`, `Keymap`, `KeymapPrinting`: the XKB text keymap reader, and its inverse.

`dafny verify dfyconfig.toml` checks the whole project.

Conventions. Goroutines are modelled as interleaved atomic steps: what is done under one hold of a mutex,
or one channel operation, is one step, and an action that is not enabled leaves the state alone. Timers are
steps that may happen at any later point. The outcome of a foreign call (a write, an X request, painting,
decoding an image, a random choice) is a parameter. Fields that record history (`sent`, `destroyed`,
`accepted`, `log`, ...) stand for what has left the client.

Where code and expectation part, the model follows the code:

- A value that is encoded although it lies inside more than 64 containers is refused by the decoder:
  `RencodeplusProofs.DecodeEncode` says exactly when, `RencodeplusProofs.NestTooDeep` has 65 nested lists.
- `Dict.Set` replaces the first of two equal keys while the receiver keeps the last:
  `OrderedDict.SetIsReceived` says exactly when, `OrderedDict.SetTwice` has an input.
- X11 requests carry 16-bit signed coordinates while windows may be up to 65535 wide and high. Damage whose
  column or last band lies past 32767 is not painted where it belongs, given a server that grants pixmaps
  wider or higher than 32767: `X11Painting.PlacedExactly`, with an input in `X11Painting.Misplaced`.
- A window with id 0 breaks the focus reports: `WindowTable.FocusExact`, with the run `WindowTable.ZeroRun`.
- A server that withdraws the selection while a request is outstanding leaves the client ready to put the
  reply into the local clipboard although it is off: `ClipboardSync.PutWhileOffExactly` says that this is
  the only way, `ClipboardSync.PutWhileOff` has the run.

## Model

| member | source | states |
|---|---|---|
| RencodeplusProofs.RoundTripValue | rencodeplus/encode.go:37-219 | for every value the encoder takes and any bytes after its encoding, decoding yields the normal form and stops exactly at the end of the encoding, if and only if no value lies inside more than 64 containers; otherwise it fails as too deep |
| RencodeplusProofs.DecodeEncode | rencodeplus/decode.go:23-33 | a whole packet comes back in normal form if and only if it is nested at most 64 deep |
| RencodeplusProofs.NestTooDeep | rencodeplus/decode.go:53-56 | n lists inside each other can be encoded, and are read back if and only if n is at most 64; 65 of them are the failing input |
| RencodeplusProofs.PrefixFree | rencodeplus/encode.go:37-219 | no encoding is a proper prefix of another, and equal encodings have equal normal forms |
| RencodeplusProofs.FirstByte | rencodeplus/encode.go:37-219 | no encoding is empty or starts with the byte that ends a terminated container |
| RencodeplusProofs.RoundTripInt | rencodeplus/encode.go:164-179 | every int64 is read back from whichever of the six integer forms its size selects |
| RencodeplusProofs.RoundTripBig | rencodeplus/decode.go:179-197 | a big integer is read back from its decimal form, as an int64 when it fits |
| RencodeplusProofs.RoundTripText | rencodeplus/encode.go:149-155 | text of any length is read back from its short or its length-prefixed form |
| RencodeplusProofs.RoundTripItems | rencodeplus/decode.go:200-219 | the items of a counted or terminated list come back in order, and nothing behind them is consumed |
| RencodeplusProofs.RoundTripEntries | rencodeplus/decode.go:222-259 | the pairs of a counted or terminated dictionary come back, entered into the map one after the other |
| RencodeplusNormal.LastWins | rencodeplus/decode.go:222-259 | of several pairs with one key the receiver keeps the last, and it sees no key that was not sent |
| RencodeplusNormal.NormTextMap | rencodeplus/encode.go:112-121 | a string-keyed map arrives with the same keys and normalised values, whatever order the map was ranged in |
| RencodeplusNormal.NormIntMap | rencodeplus/encode.go:122-135 | an integer-keyed map arrives under the decimal texts of its keys |
| RencodeplusNormal.NormalUnchanged | rencodeplus/decode.go:23-33 | values of the kinds the decoder makes are unchanged by sending and receiving |
| RencodeplusNormal.DecodedNormal | rencodeplus/decode.go:53-142 | whatever the decoder accepts is a normal value nested within the cap, on every byte string |
| RencodeplusNormal.DecodedRoundTrip | rencodeplus/decode.go:23-33 | on every byte string: a value the decoder accepts can be encoded, and decodes to itself |
| RencodeplusNormal.NodesBounded | rencodeplus/decode.go:53-142 | every node of a decoded tree was paid for by at least one input byte, and decoding never reads past the input |
| RencodeplusWire.WireRead | rencodeplus/decode.go:53-259 | whatever form a peer chooses for a value (integers in any width or in decimal, short or length-prefixed strings, counted or terminated containers, keys as text, binary or integers), the decoder reads what the form means and nothing behind it; a key of any other kind is refused |
| RencodeplusWire.PairsRead | rencodeplus/decode.go:222-259 | counted or terminated pairs give the last-wins map under the text, the bytes or the decimal form of each key |
| RencodeplusWire.ItemsRead | rencodeplus/decode.go:200-219 | counted or terminated items give the list of what their forms mean |
| RencodeplusWire.AcceptedExactly | rencodeplus/decode.go:23-259 | on every byte string: a packet decodes to a value if and only if it is a form of the grammar that means that value, with nothing inside more than 64 containers |
| RencodeplusWire.NothingBehind | rencodeplus/decode.go:23-33 | a packet that is accepted is refused as soon as anything follows it, so none is the beginning of another |
| RencodeplusSize.ShortestForm | rencodeplus/encode.go:37-201 | for every value without floats and dictionaries: no form of the grammar that means it is shorter than its encoding |
| Bytes.FormatIntPlain | rencodeplus/decode.go:222-259 | an integer key becomes its decimal digits, without a zero or a plus in front, and with a minus sign only if it is negative |
| Floats.WidenExact | rencodeplus/decode.go:123-128 | a float32, of either sign, zero, subnormal, infinite or NaN, is read as the float64 of the same value; NaNs keep their payload |
| Floats.QuietNaN | rencodeplus/decode.go:123-128 | a NaN is read as a quiet one |
| Rencodeplus.SortKeysSorts | rencodeplus/encode.go:112-135 | the keys written are all the keys of the map, once each, in increasing order |
| Codec.SortedUnique | rencodeplus/encode.go:112-135 | only one increasing list holds a given set of keys, so the bytes of a map do not depend on the order it is ranged in |
| Codec.SortMapKeys | rencodeplus/encode.go:112-135 | sorting the ranged keys, in any order, gives the increasing list of the key set |
| Codec.Encode | rencodeplus/encode.go:37-138 | the appending encoder computes the specified encoding, and fails exactly on the values that have none |
| Codec.EncodeTo | rencodeplus/encode.go:37-138 | appends the encoding of a value to what is in the buffer |
| Codec.EncodeList | rencodeplus/encode.go:185-201 | appends header, items and terminator of a list of any length |
| Codec.EncodeDict | rencodeplus/encode.go:203-219 | appends header, pairs and terminator of a dictionary of any length |
| Codec.Decoder.Next | rencodeplus/decode.go:44-51 | hands out the next n bytes and advances past them, or reports truncation when n is negative or fewer are left |
| Codec.Decoder.Value | rencodeplus/decode.go:53-142 | the position-advancing decoder computes the specified parse and leaves its position at the rest |
| Codec.Decoder.Sized | rencodeplus/decode.go:146-174 | reads a length prefix, its separator and the payload |
| Codec.Decoder.BigInt | rencodeplus/decode.go:179-197 | reads a decimal number up to its terminator |
| Codec.Decoder.List | rencodeplus/decode.go:200-219 | the loop over counted or terminated items computes the specified list |
| Codec.Decoder.Dict | rencodeplus/decode.go:222-259 | the loop over counted or terminated pairs computes the specified map |
| Codec.DecodeAll | rencodeplus/decode.go:23-33 | one value and nothing after it, or an error |
| OrderedDict.Dict.Set | rencodeplus/rencodeplus.go:75-83 | replaces the value of the first entry with the key in place, or appends |
| OrderedDict.SetIsReceived | rencodeplus/rencodeplus.go:75-83 | setting a key and sending the dictionary updates the map that is received, unless the key occurs twice, when the receiver still sees its last value |
| OrderedDict.SetTwice | rencodeplus/rencodeplus.go:75-83 | the failing input: a key with values 1 and 2 set to 3 is received as 2 |
| OrderedDict.SetKeepsSingle | rencodeplus/rencodeplus.go:75-83 | setting keys never makes one occur twice |
| Framing.HeaderRoundTrip | protocol/header.go:60-98 | a header is parsed back; the exact lengths and indexes that are refused, and why |
| Framing.HeaderWritten | protocol/header.go:72-98 | only the eight bytes written for a header are parsed as it; a first byte other than "P" and nothing else is refused as bad magic |
| FramingProofs.TakeKeepsValid | protocol/conn.go:41-60 | whatever frame arrives, valid pending chunks stay valid: at most 3, at indexes 1 to 15, none empty, their sizes summing to the recorded size of at most 64 MiB |
| FramingProofs.PendingValid | protocol/conn.go:287-346 | on any stream, however malformed, and after any number of frames: the chunks held are within those limits, and reading goes on from there |
| FramingProofs.ReadingEnds | protocol/conn.go:287-346 | and after some number of frames the reader stops, having delivered all it ever does |
| FramingProofs.DeliveredPacket | protocol/conn.go:62-94 | a delivered packet holds every pending chunk at its own index, where the main packet had an empty placeholder, and is the main packet elsewhere |
| FramingProofs.DeliveredExactly | protocol/conn.go:62-94 | a main frame is delivered if and only if every pending chunk has an empty binary or text element to go to and all of it together is within 64 MiB |
| Framing.DecompressExact | protocol/conn.go:368-402 | a payload is inflated if and only if the fifth bit of its compression byte is set, at any level, and its size prefix and block are good; which algorithm or defect any other is refused for |
| FramingProofs.CleanEnd | protocol/conn.go:287-346 | a nil error means the stream ended on a frame boundary with nothing pending, and every main frame was delivered |
| FramingProofs.ReadMessage | protocol/conn.go:287-346 | chunks in any order followed by their main frame are delivered as one packet, and reading goes on behind them |
| FramingProofs.ReadMessages | protocol/conn.go:287-346 | the same for any number of packets, with anything after them |
| FramingProofs.EndToEnd | protocol/conn.go:287-346 | the reader run on the bytes of any sequence of such messages delivers exactly their packets, normalised and in order, and ends cleanly |
| Reader.RawChunks.Add | protocol/conn.go:41-60 | adds a chunk to the pending ones, or reports the first limit it breaks and keeps them |
| Reader.RawChunks.Apply | protocol/conn.go:62-94 | puts every pending chunk into the packet and empties the state, or reports why one does not fit |
| Reader.TakeFrame | protocol/conn.go:313-344 | one frame is held as a chunk, delivered as a packet, or ends the connection, as specified |
| Reader.ReadLoop | protocol/conn.go:287-346 | the loop over a stream delivers the packets and ends with the error the specification gives |
| Writer.InOrderStep | protocol/conn.go:183-366 | every step keeps: what was accepted is what was written, is being written and waits, in order, and the wire holds the written frames whole plus a proper prefix of at most one whose write failed |
| Writer.UniqueMarkersStep | protocol/conn.go:223-250 | every step keeps flush markers distinct |
| Writer.DoneIsWrittenStep | protocol/conn.go:348-366 | a marker is only reported done once it was taken off the queue in its turn |
| Writer.ClosesOnceStep | protocol/conn.go:265-285 | no interleaving of Close and fail closes a channel twice |
| Writer.ErrorStays | protocol/conn.go:278-285 | the first recorded error is never replaced, and none is recorded after Close |
| Writer.ErrorStaysForever | protocol/conn.go:278-285 | the same over every continuation of a run |
| Writer.ErrorExact | protocol/conn.go:265-285 | in every run: Err is the error of the first failure whose critical section came before that of the Close that closed the connection, and nil if and only if there was none |
| Writer.FailRecords | protocol/conn.go:278-285 | a failure on an open connection without an error records its own |
| Writer.TearRecords | protocol/conn.go:348-366 | so does a write that fails, and what went out of its frame is on the wire |
| Writer.TornIsReported | protocol/conn.go:265-285 | in every run without a call of Close: once the loop is gone after a failed write, Err is not nil |
| Writer.TearStops | protocol/conn.go:348-366 | after a failed write the loop by itself closes the connection and ends |
| Writer.CloseCloses | protocol/conn.go:265-276 | a call of Close on an open connection closes it and its channel |
| Writer.ShutsOnce | protocol/conn.go:265-276 | in every run the step that closes the closing channel finds it open |
| Writer.ReportsOnce | protocol/conn.go:348-366 | in every run the channel of the marker the loop comes to is open, and closed by that |
| Writer.SendAccepts | protocol/conn.go:183-207 | a frame sent on an open connection is queued behind all others, unless the queue is full |
| Writer.ClosedAcceptsNothing | protocol/conn.go:183-250 | on a closed connection Send and Flush queue nothing |
| Writer.OneCallAtATime | protocol/conn.go:183-285 | a goroutine inside one method of the connection does not begin another |
| Writer.FlushMarks | protocol/conn.go:223-242 | Flush queues a marker of its own behind everything accepted so far |
| Writer.FlushReturns | protocol/conn.go:242-250 | a Flush whose marker was reported returns nil, any other can only give up |
| Writer.LoopLeaves | protocol/conn.go:348-366 | between two frames the loop leaves once the closing channel is closed, and only then |
| Writer.LoopDrains | protocol/conn.go:348-366 | in every reachable state: as long as writes go through, the loop by itself writes everything accepted, in order, and reports every marker |
| Writer.EveryRun | protocol/conn.go:183-366 | the four invariants hold after any interleaving of Send, Flush, Close, failures and the write loop |
| Writer.FlushIsHonest | protocol/conn.go:223-250 | if Flush returned nil, every frame accepted before its marker is on the wire, whole and in order |
| Connection.MakeFrame | protocol/conn.go:183-190 | Send frames exactly the packets that can be encoded, header and payload in one buffer |
| Connection.CutFrame | protocol/conn.go:287-346 | a frame cut off delivers nothing, and the reader notices unless nothing of it arrived |
| Connection.PeerGets | protocol/conn.go:183-366 | in every run whose calls of Send carry packets that fit, a peer reading the wire gets exactly the packets written, in the order accepted, and sees a clean end if and only if no frame was torn after its first byte |
| Connection.FlushedArrive | protocol/conn.go:223-250 | in such a run, once Flush has returned nil the peer has every packet accepted before its marker |
| Connection.SameFrame | protocol/conn.go:183-190 | packets with the same frame are received alike |
| Connection.PeerReceives | protocol/conn.go:183-366 | after any interleaving a peer reading the wire delivers exactly the packets whose frames were written, and sees a clean end if and only if no frame was torn after its first byte |
| EventQueue.LastMatchFacts | ui/event_queue.go:52-63 | the event replaced is the last one the new event may replace, if there is any |
| EventQueue.FirstVictimFacts | ui/event_queue.go:65-73 | the event sacrificed is the first that may be, if there is any |
| EventQueue.Queue.PushLocked | ui/event_queue.go:46-79 | the in-place loops compute the specified queue and say whether the event was taken in |
| EventQueue.Queue.Push | ui/event_queue.go:33-44 | pushes, and leaves a wake token whenever something was added |
| EventQueue.Queue.Pop | ui/event_queue.go:82-93 | removes the oldest event by shifting the others |
| EventQueue.Conservation | ui/event_queue.go:46-93 | after any run the non-coalescible events popped and pending are, in order, all that were pushed; a queue over the limit holds nothing else |
| EventQueue.Freshness | ui/event_queue.go:46-118 | after any run, for every window and class: popped plus pending events are a subsequence of the pushes, and if any is pending the last one is the newest ever pushed |
| EventQueue.Superseding | ui/event_queue.go:95-118 | motion, geometry and clipboard changes, and nothing else, may be dropped, and exactly those of one kind and window supersede each other |
| EventQueue.PushWithRoom | ui/event_queue.go:46-50 | a queue below its limit takes every event in, at its end |
| EventQueue.NothingLost | ui/event_queue.go:46-93 | in every run whose pushes all found the queue below its limit, the events popped and pending are the events pushed |
| EventQueue.PushTakesIn | ui/event_queue.go:46-79 | after any run a push takes its event in, as the newest of its class, unless the queue is full, the event may be dropped and nothing of its class waits; then nothing changes |
| EventQueue.PushReplaces | ui/event_queue.go:52-63 | on a full queue an event of a class takes the place of the newest of its class |
| EventQueue.PushEvicts | ui/event_queue.go:65-78 | on a full queue an important event costs the oldest event of any class, or none if everything that waits is important |
| EventRelay.NoLostWakeup | wayland/display.go:398-416 | for any number of producers: while the relay waits on a non-empty queue there is a wake token or a producer about to send one |
| EventRelay.RelayedInOrder | wayland/display.go:398-416 | what the client got and what still waits keep conservation and freshness |
| EventRelay.RelayDrains | wayland/display.go:398-416 | once no producer is mid-push, the relay by itself hands on everything that waits, in order |
| EventRelay.PushSignals | ui/event_queue.go:33-44 | once a push is over its event is in the history of the queue and there is a wake token, unless the event was refused |
| EventRelay.EverythingHandedOn | wayland/display.go:398-416 | in every reachable state: once the producers that added an event have sent their tokens, the relay by itself hands on all that waits, in order |
| Pixels.ClipExact | ui/pixels.go:71-79 | a pixel is inside the clipped rectangle if and only if it is inside the rectangle and the window |
| Pixels.ConvertSwap | ui/pixels.go:92-96 | the loop over four-byte pixels writes the converted row and nothing else |
| Pixels.ConvertBGR | ui/pixels.go:98-102 | the loop over three-byte pixels, blue first, writes the converted row and nothing else |
| Pixels.ConvertRGB | ui/pixels.go:104-108 | the loop over three-byte pixels, red first, writes the converted row and nothing else |
| Pixels.ConvertCopy | ui/pixels.go:90 | copying a row is converting it when the layouts agree |
| Pixels.RowPixel | ui/pixels.go:42-63 | pixel p of a converted row is the conversion of pixel p of the source row |
| Pixels.Convert | ui/pixels.go:42-63 | for any destination stride that is not negative the rows are written to their places one after the other; when they do not overlap every row ends up converted and everything between them is untouched; the error is the first check that fails |
| Pixels.WrittenConverted | ui/pixels.go:57-62 | rows written one after the other are all in place if the destination stride is at least a row |
| Painting.PaintedPixel | wayland/window.go:493-515 | a pixel inside the clipped rectangle becomes the converted source pixel at its offset in the damage |
| Painting.UnpaintedPixel | wayland/window.go:493-515 | no byte of a pixel outside the clipped rectangle changes |
| Painting.RowsArePicture | wayland/window.go:493-515 | converted rows at the clipped place are the rectangle painted into the two-dimensional picture |
| Painting.PaintedChannels | ui/pixels.go:15-108 | after a successful paint every pixel of the rectangle has the bytes of the source pixel there, each in the place of its letter in the name of the format, and 255 for a missing fourth; every other pixel is as it was |
| Painting.Window.Paint | wayland/window.go:493-515 | one call on the flat buffer paints the picture, or reports an error and changes nothing; the buffer is never too small |
| Painting.PaintAll | wayland/window.go:493-515 | a run of calls, good and bad, refines painting the rectangles one after another |
| X11Painting.BandsTile | x11/window.go:324-335 | every row of a rectangle is in exactly one band |
| X11Painting.BandFits | x11/window.go:324-335 | every band fits the request limit if and only if a single row does |
| X11Painting.BandDrawn | x11/window.go:324-335 | what the server draws for one band extends the uploaded part by exactly its rows |
| X11Painting.BandsDrawn | x11/window.go:324-335 | drawing all requests uploads the whole rectangle |
| X11Painting.X11Window.PutImages | x11/window.go:324-335 | the band loop sends the specified requests and leaves the uploaded rectangle in the pixmap |
| X11Painting.X11Window.Paint | x11/window.go:293-320 | converting into the scratch buffer and uploading it paints the picture, as far as 16-bit coordinates reach, or reports an error and changes nothing |
| X11Painting.PlacedExactly | x11/window.go:331-333 | the rectangle is painted as on Wayland, whatever was in the pixmap, if and only if its column and the first row of its last band are at most 32767 |
| X11Painting.Misplaced | x11/window.go:331-333 | the failing input: a pixel in column 32768 of a window 32769 wide stays as it was, whatever is in the pixmap |
| X11Painting.BackendsAgree | x11/window.go:293-335 | in windows of at most 32768 by 32768 both backends paint the same |
| Utf8.Latin1Runes | x11/clipboard.go:172-178 | bytes converted as Latin-1 are valid UTF-8 whose code points are the bytes |
| Utf8.WrittenIsValid | x11/clipboard.go:108-123 | the UTF-8 form of any characters is valid and is read as those characters |
| Utf8.ValidIsWritten | x11/clipboard.go:108-123 | whatever is valid is the UTF-8 form of the characters it is read as, none of them a surrogate or past U+10FFFF |
| Incr.PiecesExact | x11/clipboard.go:268-285 | a text is handed over in non-empty pieces within the limit that concatenate to it, then exactly one empty piece |
| Incr.HandsOverPieces | x11/clipboard.go:268-285 | whatever else happens, SetText included, the requestor gets the pieces of the text as it was at the request, one per deletion, and nothing more |
| Incr.AfterTransfer | x11/clipboard.go:273-278 | once the transfer is over nothing more is put into the property |
| Incr.Assembles | x11/clipboard.go:233-268 | a receiver fed those pieces reports exactly that text, once, and stops receiving |
| Incr.TransferDelivers | x11/clipboard.go:184-286 | from one clipboard to another: the text held when the request came in is the text reported, whatever both do meanwhile |
| Incr.WholeDelivers | x11/clipboard.go:205-208 | text within the limit is answered whole and reported as it is |
| Incr.SetDelivers | x11/clipboard.go:108-231 | from SetText on one client to the report on another: that one asks the new owner, and reports text within the limit as it is |
| Incr.SetTransfers | x11/clipboard.go:108-286 | longer text it gets piece by piece and reports once it has all of them |
| Incr.TransferGivenUp | x11/clipboard.go:125-136 | when another client takes or drops the clipboard nothing of a transfer under way is reported any more; dropping it is reported as empty text |
| Incr.AskedInOrder | x11/clipboard.go:125-160 | a new owner is asked for UTF-8, then for STRING if it refuses, and then for nothing more, whatever was asked for before |
| Incr.AnswerRead | x11/clipboard.go:143-182 | an answer is reported as it is if it is valid and within 16 MiB; else, if STRING was asked for, as the characters its bytes are in Latin-1 |
| Incr.RequestAnswered | x11/clipboard.go:184-231 | a request is answered under its property, or under its target if it names none: with the targets, the text, the start of a transfer, or a refusal |
| Incr.SoundRun | x11/clipboard.go:108-286 | over any events: held and received text stays within 16 MiB, and only valid UTF-8 is ever reported |
| Incr.Clipboard.SetText | x11/clipboard.go:108-123 | keeps valid text within the limit and nothing else, and fails if the text is refused or the selection cannot be claimed |
| Incr.Clipboard.OwnerChanged | x11/clipboard.go:125-136 | gives up what is being received, and reports an empty clipboard or asks the new owner |
| Incr.Clipboard.SelectionNotify | x11/clipboard.go:143-182 | starts receiving, falls back to STRING, or reports the text |
| Incr.Clipboard.SelectionRequest | x11/clipboard.go:184-231 | answers a request whole, incrementally, with the targets, or with a refusal |
| Incr.Clipboard.PropertyNotify | x11/clipboard.go:233-286 | takes an incoming piece or hands over an outgoing one |
| WindowTable.EveryRun | client/client.go:647-756 | in every reachable state the two maps are inverse, every window created is in them or was destroyed exactly once, and the iconified, serverIconic and focused entries name only living windows |
| WindowTable.ForgottenInverse | client/client.go:696-705 | forgetting a window keeps the maps inverse and leaves no entry behind |
| WindowTable.ResolvedExact | client/client.go:1077-1087 | an event for a local window finds the remote window it belongs to, and only that |
| WindowTable.CreatedExact | client/client.go:647-684 | a new window is registered under both ids with a number of its own, mapped unless it is override-redirect, and the stale window with its id is destroyed |
| WindowTable.StrayEvent | client/client.go:1074-1087 | events for local windows that live no more change nothing |
| WindowTable.CloseExact | client/client.go:1065-1072 | a close request is passed on under the remote id of its window |
| WindowTable.ConfigureExact | client/client.go:982-1002 | a geometry change is reported under the remote id if it is one and could be applied |
| WindowTable.HeldIsSaid | client/client.go:1021-1051 | what is held about a living window is what the desktop and the server last said about it since it was created, even if ids were reused |
| WindowTable.UnmapExact | client/client.go:1055-1061 | a delayed minimize report is sent if and only if its window lives, the desktop last said it is minimized, and the server did not ask for that |
| WindowTable.RestoreExact | client/client.go:1021-1051 | a restored window is mapped again if and only if it was known to be minimized and the server did not ask for the restoring |
| WindowTable.FocusRun | client/input.go:90-137 | with non-zero window ids, in a client that has the channel for delayed reports: at most one report on its way, never two "no focus" reports in a row, and with none on its way the last report is the focused window unless the reported one was destroyed |
| WindowTable.FocusExact | client/input.go:111-137 | that holds of all runs creating only windows with given ids if and only if 0 is not among them |
| WindowTable.ResolvedIsSaid | client/client.go:647-694 | in every reachable state a local id is resolved to the remote window that the events say it belongs to |
| WindowTable.FocusIsSaid | client/input.go:90-137 | in every reachable state the focus held is what the events last said: the window that gained it, or none since it lost it or was destroyed |
| WindowTable.GainReported | client/input.go:90-100 | a window that gains the focus is reported if and only if another one had it by the events |
| WindowTable.GainBelieved | client/input.go:90-137 | and then the server believes that this window has the focus, whatever was on its way; in runs that create no window 0 |
| WindowTable.LossDelayed | client/input.go:111-127 | losing the focus sends nothing, and starts a delayed report if and only if the window had it and none is on its way |
| WindowTable.LossReported | client/input.go:130-137 | the delayed report is sent if and only if no window has the focus by then |
| WindowTable.MinimizeExact | client/client.go:1021-1051 | minimizing sends nothing, and starts a delayed report if and only if the window was not minimized and the server did not ask for it |
| WindowTable.ZeroRun | client/input.go:111-137 | the run that breaks it: a window with id 0 that loses a focus it never had |
| WindowTable.Client.Handle | client/client.go:116-163 | one turn of the run loop, for window, minimize and focus events, changes the state as the specification says |
| WindowTable.Client.ForgetWindow | client/client.go:696-705 | removes the window from every table and destroys it |
| WindowTable.Client.HandleNewWindow | client/client.go:647-684 | forgets a stale window with the id, then registers the new one and maps it, if the display can make one |
| WindowTable.Client.HandleLostWindow | client/client.go:686-694 | forgets the window if there is one |
| WindowTable.Client.HandleMetadata | client/client.go:720-756 | records what the server asks of a living window |
| WindowTable.Client.HandleMinimized | client/client.go:1021-1051 | records the change, and schedules or sends a report unless the server asked for it |
| WindowTable.Client.SendIconified | client/client.go:1055-1061 | reports the window if it is still minimized and the server did not ask for it |
| WindowTable.Client.HandleFocus | client/input.go:90-100 | reports a newly focused window |
| WindowTable.Client.HandleFocusLost | client/input.go:111-127 | forgets the focus and starts at most one delayed report, or none if there is no channel for it |
| WindowTable.Client.SendFocusLost | client/input.go:130-137 | reports the lost focus unless a window has it again |
| WindowTable.Client.HandleConfigure | client/client.go:982-1002 | reports a geometry change that could be applied |
| Mmap.LittleEndianRoundTrip | client/mmap.go:213-237 | every natural that fits in count bytes is read back from its little-endian bytes |
| Mmap.WriteToken | client/mmap.go:213-226 | writes the little-endian bytes of a token that fits and changes nothing else; the exact tokens and bounds it refuses |
| Mmap.ReadToken | client/mmap.go:228-237 | reads the number stored little-endian at in-range positions |
| Mmap.TokenRoundTrip | client/mmap.go:213-237 | what is written is read back |
| Mmap.Area.GenerateToken | client/mmap.go:123-143 | the token is not zero, lies past the 8-byte header and inside the area, and can be read back; it fails only when the area is too small |
| Mmap.Area.EnableFromCaps | client/mmap.go:162-195 | takes the description of the area from the dictionary of its own or from the older flat form; enabled if and only if the server names the number stored at the place it gives; declined or refused exactly as specified |
| Mmap.CapsRefused | client/mmap.go:162-195 | a described area is accepted if and only if its positive token is the number stored at a place inside the area, of 128 bytes unless it says otherwise; why any other is refused |
| Mmap.Declined | client/mmap.go:162-195 | a server that describes no area, or does not enable it, is declined |
| Mmap.Handshake | client/mmap.go:162-237 | a server that writes a token and says where, in either form, is accepted if and only if it names that token |
| Mmap.ParseChunks | client/mmap.go:267-295 | accepts exactly one or two pairs past the header and inside the area whose lengths sum to a positive number no larger than the area, and returns them in order; of any other list it reports the first thing wrong |
| Mmap.OneAccepted | client/mmap.go:267-295 | one pair is accepted if and only if it has pixels and lies past the 8-byte header and inside the area |
| Mmap.TwoAccepted | client/mmap.go:267-295 | two pairs are accepted if and only if both lie there, one has pixels, and together they are no longer than the area |
| Mmap.OnlyPairsAccepted | client/mmap.go:267-295 | nothing but one or two pairs of integers is accepted |
| Mmap.RefusedChunks | client/mmap.go:267-295 | why a list is refused: its length, the first pair that is none, lies outside or adds up to too much, or that there are no pixels |
| Mmap.Area.ReadChunks | client/mmap.go:239-265 | the pixels are the bytes of the chunks in order, and the release holds the end of the last |
| Mmap.Release.Call | client/mmap.go:248-254 | publishes the cursor the first time and does nothing afterwards |
| Draws.OneHonestAck | client/client.go:823-949 | a draw gets exactly one acknowledgement, last, with its sequence; its time is never zero, and positive if and only if painting ran and succeeded |
| Draws.CursorOnce | client/client.go:833-949 | the cursor is published if and only if the chunks are good: once, as the end of the last chunk, after painting and before the acknowledgement |
| Draws.PaintedExact | client/client.go:848-937 | something is painted if and only if the window lives and the packet has usable pixels for its coding: first, once, at the place and size the packet gives |
| Draws.RgbPainted | client/client.go:901-918 | for rgb codings the payload is painted, with the packet rowstride, in the named format or that of the coding |
| Draws.ImagePainted | client/client.go:920-928 | for images the decoded picture is painted, as BGRX |
| Draws.MemoryPainted | client/client.go:848-899 | for mmap the bytes of the chunks are painted in order, with the packet rowstride, in the named format or RGB |
| Draws.AckExact | client/client.go:833-949 | the acknowledgement has the packet width and height; its time is that of painting, at least 1; -2 if and only if the window is missing and the pixels were readable; -1 in every other case |
| Draws.CursorRead | client/mmap.go:248-254 | after a draw whose pixels were in the memory the server reads the end of the last chunk there, and nothing else has changed |
| Draws.EveryDrawAcked | client/client.go:823-949 | over every run the acknowledgements are those of the draws, in order |
| Draws.Client.ReleasePixels | client/mmap.go:248-254 | gives the memory back once |
| Draws.Client.HandleDraw | client/client.go:823-949 | the handler does exactly the specified effects in order, on every path, and leaves the specified memory |
| ClipboardSync.WireTextValid | client/clipboard.go:273-300 | text accepted from the wire is valid UTF-8 |
| ClipboardSync.EveryRun | client/clipboard.go:34-271 | in every reachable state at most one request is outstanding, the newest ever issued and of the current generation, and known text is valid UTF-8 of at most 16 MiB |
| ClipboardSync.GenerationNeverRejects | client/clipboard.go:189-202 | the generation test never turns away a known id |
| ClipboardSync.OnlyNewestOffer | client/clipboard.go:184-202 | after a new offer no reply to an earlier request ever changes anything, whatever comes between |
| ClipboardSync.AppliedOnce | client/clipboard.go:189-202 | nor does a second reply to the same request |
| ClipboardSync.ActionsProper | client/clipboard.go:71-228 | text is sent only while sending is on and it is the known text; only valid text within the limit is put into the local clipboard |
| ClipboardSync.NoEcho | client/clipboard.go:71-87 | text taken from the server is not sent back, and text sent is not put again |
| ClipboardSync.FlagsAreSaid | client/clipboard.go:34-256 | in every reachable state text is sent and received, and the clipboard is on, as the server last said: in its capabilities, and within those in its selections and its status |
| ClipboardSync.HeldStep | client/clipboard.go:71-271 | the text held changes only to valid text the desktop announces, or to text that was put into the local clipboard and taken |
| ClipboardSync.RemoteCopyArrives | client/clipboard.go:116-202 | in every reachable state that receives: an offer is answered by a request for its preferred target under a new id, and the text of the reply is put, unless it is known already |
| ClipboardSync.InlineCopyArrives | client/clipboard.go:116-136 | text that comes with an offer is put at once and nothing is asked |
| ClipboardSync.OfferIgnored | client/clipboard.go:116-182 | an offer changes nothing unless it claims the clipboard and text may be received |
| ClipboardSync.LocalCopyServed | client/clipboard.go:71-228 | in every reachable state that sends: new text is announced, inline up to 4 MiB, and given to a server that asks |
| ClipboardSync.RequestAnswered | client/clipboard.go:210-228 | a request is answered with the text if it is known, may be sent and is asked for under a target of ours; with the targets if it asks for those; else with nothing |
| ClipboardSync.TurningOnAnnounces | client/clipboard.go:34-256 | when the server turns the clipboard on it is told of the text known here, if text may be sent |
| ClipboardSync.WireTextExact | client/clipboard.go:273-300 | text from the server is bytes of eight bits under a target of ours, within 16 MiB, and valid UTF-8 or else, under STRING only, Latin-1 |
| ClipboardSync.AskedTarget | client/clipboard.go:302-312 | the target asked for is the first of ours that is offered, or UTF8_STRING if none is named |
| ClipboardSync.InlineFirst | client/clipboard.go:138-167 | of inline contents the text of the first of our targets that has any is taken |
| ClipboardSync.PutWhileOffExactly | client/clipboard.go:189-256 | along a run there is an event that would put text into the local clipboard while it is off, if and only if at some step the server withdraws the selection while a request is outstanding |
| ClipboardSync.WithdrawalPuts | client/clipboard.go:189-241 | in any such withdrawal the clipboard is off afterwards and a reply to the request is put |
| ClipboardSync.NeverPutWhileOff | client/clipboard.go:189-256 | a run in which the server never does that never puts text while the clipboard is off |
| ClipboardSync.PutWhileOff | client/clipboard.go:189-241 | the run in which a reply is put into the local clipboard after the selection was withdrawn |
| ClipboardSync.Clipboard.ConfigureClipboard | client/clipboard.go:34-69 | sets direction and readiness from the capabilities, drops requests and announces known text |
| ClipboardSync.Clipboard.HandleClipboardChange | client/clipboard.go:71-87 | remembers new valid text within the limit and announces it while sending is on |
| ClipboardSync.Clipboard.HandleClipboardContentsNone | client/clipboard.go:204-208 | drops the request |
| ClipboardSync.Clipboard.HandleClipboardEnableSelections | client/clipboard.go:230-241 | switches the clipboard off if the selection is missing, and else on |
| ClipboardSync.Clipboard.HandleClipboardToken | client/clipboard.go:116-136 | begins a new offer and applies its text or asks for it |
| ClipboardSync.Clipboard.HandleClipboardData | client/clipboard.go:138-167 | the loop over our targets applies the first usable text, or asks for it |
| ClipboardSync.Clipboard.FindTarget | client/clipboard.go:302-312 | the loop finds the first of our targets among those offered |
| ClipboardSync.Clipboard.HandleClipboardContents | client/clipboard.go:189-202 | drops the request and applies the text if it answers it |
| ClipboardSync.Clipboard.ApplyRemoteClipboard | client/clipboard.go:258-271 | puts new text within the limit into the local clipboard, and remembers it if it was taken |
| ClipboardSync.Clipboard.HandleClipboardRequest | client/clipboard.go:210-228 | answers with text, targets or nothing |
| ClipboardSync.Clipboard.HandleClipboardStatus | client/clipboard.go:243-256 | switches the clipboard on and announces text, or off and drops requests |
| KeymapPrinting.PrintedKeymapRead | wayland/keymap.go:74-93 | for any keys with distinct plain names, printed in the short or labelled form, with or without type and actions, and any sections in between, reading gives exactly their table |
| KeymapPrinting.TableLast | wayland/keymap.go:82-91 | the last key with a code of at least 8 gives the names of that code |
| KeymapPrinting.TableOnly | wayland/keymap.go:82-91 | and no other code is in the table |
| KeymapPrinting.CodeRead | wayland/keymap.go:126-152 | a printed code line is read as its key name and number |
| KeymapPrinting.StatementRead | wayland/keymap.go:180-196 | a printed statement is read as its key name and symbol list |
| KeymapPrinting.SpacedStatementRead | wayland/keymap.go:180-196 | whatever space surrounds it, and with any of the four kinds of space after its first word |
| Keymap.KeyStatementParts | wayland/keymap.go:180-196 | on any text: what is read as a key statement has "key" and one of those spaces in front, a name from "<" to the next ">", and the list behind it |
| KeymapPrinting.LabelledList | wayland/keymap.go:208-220 | the list is found after its label, whose own bracket is not taken for it, and not in the actions |
| KeymapPrinting.ShortList | wayland/keymap.go:208-220 | the short form is never taken for a labelled one |
| KeymapPrinting.SymbolsRead | wayland/keymap.go:238-264 | a symbol list, names, numbers and placeholders, is read as what it means |
| XkbText.NumberRead | wayland/keymap.go:126-152 | digits of either case with any zeros in front are read as their number if it is below 2 to the 32nd, and refused otherwise |
| XkbText.ParsedNumber | wayland/keymap.go:126-152 | and nothing else is read as a number |
| KeymapPrinting.SectionOf | wayland/keymap.go:97-121 | a section with matching braces is found whole |
| Keymap.JoinStatements | wayland/keymap.go:157-176 | on any text the statements joined by ";" give back the text |
| Keymap.CutsExactly | wayland/keymap.go:157-176 | on any text the cuts are exactly the places at which the scanner cuts |
| Keymap.SemicolonsCut | wayland/keymap.go:157-176 | that is, exactly the semicolons with an even number of quotes before them and no bracket left open outside quotes |
| Keymap.ReadSection | wayland/keymap.go:97-121 | the brace-counting loop finds the specified body |
| Keymap.ParseKeycodes | wayland/keymap.go:126-152 | the loop over the lines collects their codes |
| Keymap.SplitStatements | wayland/keymap.go:157-176 | the scanning loop cuts the specified statements |
| Keymap.ReadSymbols | wayland/keymap.go:238-244 | the loop names every level of a list |
| Keymap.ParseKeymap | wayland/keymap.go:74-93 | the whole reader computes the specified table |

## Left out

- Sockets, TLS, WebSocket, the SSH subprocess, prompts and signals: a stream is a byte sequence, and a write is a step that succeeds or fails.
- lz4: only the size prefix and bounds of `decompress` are modelled; `FramingProofs.EndToEnd` assumes a block codec that is inverse to the sender's.
- Floating point: a float64 is eight bytes that are passed on as they are; `Floats.WidenExact` has what a float32 becomes, signalling NaNs as the usual hardware converts them.
- The kinds of encoder errors, which are one failure in `Codec.Encode`, and the texts of all error messages, the one in an acknowledgement included.
- Machine-integer overflow of stride products in `Pixels.Convert`, and of the counters for clipboard requests and generations: they are mathematical integers.
- Byte order: the read cursor is written as on a little-endian host.
- A full write queue drops a packet in `Send`: `Draws` proves that an acknowledgement is handed to `Send` once, not that it is written.
- Liveness: apart from `EventRelay.EverythingHandedOn` and `Writer.LoopDrains` nothing is said about steps happening; in particular a window need not have stayed minimized for the whole delay of a report.
- The channels between timers and the run loop: a timer that fires is one step with the report it causes.
- Window states other than "iconic", titles, icons, geometry, monitors, raising, bells, cursors, notifications and show-desktop: they pass through without touching the tables.
- Motion, button and key events of the client: they only look the window up, as `WindowTable.Client.HandleCloseRequest` does.
- `protocol.Packet` accessors and the dispatch by packet name: handlers take the fields as the accessors yield them.
- Image decoding and colour conversion, HMAC digests, hello contents, tokens' randomness, key tables and numeric keysym names: library code or static tables, given as parameters where they matter.
- `keymap.name` and `keyDetails`: which of two levels a modifier selects.
- Keymap text that is not valid UTF-8: text is taken as its code points. Key names of printed keymaps are letters and digits.
- Presenting, damage and buffer release on Wayland, clearing the painted area and reallocating pixmaps on X11: what becomes visible and when.
- Reading a property that is larger than one X reply: pieces here never are.
- The backing file of the shared memory, and reading the area while a server writes to it.
- Win32 and AppKit backends, the tray, the connection dialog, packaging and documentation tools.
- Writer.EveryRun: the methods of a connection are atomic steps of a state that is a value, since they interleave with each other; the same holds of the relay in `EventRelay`.
- Pixels.Convert: destination strides below 0, which no caller passes, are not modelled.
- WindowTable.FocusRun: a client without the channel for delayed reports never reports a lost focus.
- Incr.TransferDelivers: the X server between both clients is represented by the pieces being read in the order in which they were put.
- Painting.PaintAll: for a buffer that is not resized in between; a new buffer is zeroed (`Painting.Window.NewBuffer`).
