/** The wire format as a grammar: every form a peer may choose for a value, with its
    tags as numbers, and that the decoder reads each of them as what it means. */
module RencodeplusWire {
  import opened Bytes
  import opened Rencodeplus
  import opened RencodeplusProofs

  // ---- the grammar -----------------------------------------------------------

  datatype Wire =
    | Nothing
    | Truth(b: bool)
    | Small(n: int)
    | Word(width: nat, n: int)
    | Number(sign: seq<byte>, digits: seq<byte>)
    | Single(bits32: Bits32)
    | Double(bits: Bits64)
    | ShortText(text: GoBytes)
    | LongText(length: seq<byte>, text: GoBytes)
    | LongBinary(length: seq<byte>, data: GoBytes)
    | Items(items: seq<Wire>, terminated: bool)
    | Pairs(flat: seq<Wire>, terminated: bool) // key, value, key, value, ...

  /** Decimal digits, with any number of zeros in front, for the length of s. */
  predicate IsLength(digits: seq<byte>, s: GoBytes) {
    digits != [] && AllDigits(digits) && DigitsValue(digits) == |s|
  }

  predicate Legal(w: Wire) {
    match w
    case Small(n) => -32 <= n <= 43
    case Word(width, n) => width in {1, 2, 4, 8} && -Pow256(width) <= 2 * n < Pow256(width)
    case Number(sign, digits) => (sign == [] || sign == [43] || sign == [45]) && digits != [] && AllDigits(digits)
    case ShortText(s) => |s| <= 63
    case LongText(length, s) => IsLength(length, s)
    case LongBinary(length, s) => IsLength(length, s)
    case Items(ws, terminated) => (terminated || |ws| <= 63) && forall i :: 0 <= i < |ws| ==> Legal(ws[i])
    case Pairs(ws, terminated) => |ws| % 2 == 0 && (terminated || |ws| <= 48) && forall i :: 0 <= i < |ws| ==> Legal(ws[i])
    case _ => true
  }

  function WordTag(width: nat): byte {
    if width == 1 then 62 else if width == 2 then 63 else if width == 4 then 64 else 65
  }

  function WireBytes(w: Wire): seq<byte>
    requires Legal(w)
  {
    match w
    case Nothing => [69]
    case Truth(b) => [if b then 67 else 68]
    case Small(n) => [if n >= 0 then n else 69 - n]
    case Word(width, n) => [WordTag(width)] + BigEndian(if n >= 0 then n else Pow256(width) + n, width)
    case Number(sign, digits) => [61] + (sign + digits) + [127]
    case Single(bits) => [66] + bits
    case Double(bits) => [44] + bits
    case ShortText(s) => [128 + |s|] + s
    case LongText(length, s) => length + [58] + s
    case LongBinary(length, s) => length + [47] + s
    case Items(ws, terminated) => if terminated then [59] + ItemsBytes(ws) + [127] else [192 + |ws|] + ItemsBytes(ws)
    case Pairs(ws, terminated) => if terminated then [60] + ItemsBytes(ws) + [127] else [102 + |ws| / 2] + ItemsBytes(ws)
  }

  function ItemsBytes(ws: seq<Wire>): seq<byte>
    requires forall i :: 0 <= i < |ws| ==> Legal(ws[i])
  {
    if ws == [] then [] else WireBytes(ws[0]) + ItemsBytes(ws[1..])
  }

  // ---- what it means ---------------------------------------------------------

  function Signed(sign: seq<byte>, n: int): int {
    if sign == [45] then -n else n
  }

  /** The text a key stands for: strings of either kind, and integers in decimal. */
  function KeyMeaning(k: Value): Option<GoBytes> {
    if k.Text? then Some(k.text)
    else if k.Binary? then Some(k.data)
    else if k.Int? then Some(FormatInt(k.n))
    else None
  }

  /** The value of a form; None if it has a dictionary with a key of another kind. */
  function Meaning(w: Wire): Option<Value>
    requires Legal(w)
  {
    match w
    case Nothing => Some(Nil)
    case Truth(b) => Some(Bool(b))
    case Small(n) => Some(Int(n))
    case Word(width, n) => Pow256Values(); Some(Int(n))
    case Number(sign, digits) =>
      var n := Signed(sign, DigitsValue(digits));
      Some(if MIN_INT64 <= n <= MAX_INT64 then Int(n) else Big(n))
    case Single(bits) => Some(Float(Widen(bits)))
    case Double(bits) => Some(Float(bits))
    case ShortText(s) => Some(Text(s))
    case LongText(_, s) => Some(Text(s))
    case LongBinary(_, s) => Some(Binary(s))
    case Items(ws, _) =>
      var items := ItemsMeaning(ws);
      if items.None? then None else Some(List(items.value))
    case Pairs(ws, _) =>
      var m := PairsMeaning(ws, map[]);
      if m.None? then None else Some(TextMap(m.value))
  }

  function ItemsMeaning(ws: seq<Wire>): Option<seq<Value>>
    requires forall i :: 0 <= i < |ws| ==> Legal(ws[i])
  {
    if ws == [] then Some([])
    else
      var v, rest := Meaning(ws[0]), ItemsMeaning(ws[1..]);
      if v.None? || rest.None? then None else Some([v.value] + rest.value)
  }

  /** Pairs entered into m one after the other: of equal keys the last one counts. */
  function PairsMeaning(ws: seq<Wire>, m: map<GoBytes, Value>): Option<map<GoBytes, Value>>
    requires |ws| % 2 == 0 && forall i :: 0 <= i < |ws| ==> Legal(ws[i])
    decreases ws
  {
    if ws == [] then Some(m)
    else
      var k, v := Meaning(ws[0]), Meaning(ws[1]);
      if k.None? || v.None? || KeyMeaning(k.value).None? then None
      else PairsMeaning(ws[2..], m[KeyMeaning(k.value).value := v.value])
  }

  /** Nothing inside w lies inside more than n containers. */
  predicate Fits(w: Wire, n: int) {
    n >= 0 &&
    match w
    case Items(ws, _) => forall i :: 0 <= i < |ws| ==> Fits(ws[i], n - 1)
    case Pairs(ws, _) => forall i :: 0 <= i < |ws| ==> Fits(ws[i], n - 1)
    case _ => true
  }

  // ---- reading ---------------------------------------------------------------

  /** Reading a form that means v, or nothing, with `rest` after it. */
  function Read<T>(meaning: Option<T>, rest: seq<byte>): Parse<T> {
    if meaning.None? then Fail(BadKey) else Done(meaning.value, rest)
  }

  lemma ItemsCons(w: Wire, ws: seq<Wire>)
    requires Legal(w) && forall i :: 0 <= i < |ws| ==> Legal(ws[i])
    ensures forall i :: 0 <= i < |[w] + ws| ==> Legal(([w] + ws)[i])
    ensures ItemsBytes([w] + ws) == WireBytes(w) + ItemsBytes(ws)
    ensures ItemsMeaning([w] + ws) ==
      if Meaning(w).None? || ItemsMeaning(ws).None? then None else Some([Meaning(w).value] + ItemsMeaning(ws).value)
  {
    hide WireBytes, Meaning, Legal;
    assert ([w] + ws)[1..] == ws;
  }

  lemma Regroup(a: seq<byte>, b: seq<byte>, c: seq<byte>, d: seq<byte>)
    ensures (a + (b + c)) + d == a + (b + (c + d))
    ensures (b + c) + d == b + (c + d)
  {
  }

  lemma PairsCons(k: Wire, v: Wire, ws: seq<Wire>, m: map<GoBytes, Value>)
    requires Legal(k) && Legal(v) && |ws| % 2 == 0 && forall i :: 0 <= i < |ws| ==> Legal(ws[i])
    ensures var all := [k, v] + ws;
      && (forall i :: 0 <= i < |all| ==> Legal(all[i]))
      && ItemsBytes(all) == WireBytes(k) + (WireBytes(v) + ItemsBytes(ws))
      && PairsMeaning(all, m) ==
           if Meaning(k).None? || Meaning(v).None? || KeyMeaning(Meaning(k).value).None? then None
           else PairsMeaning(ws, m[KeyMeaning(Meaning(k).value).value := Meaning(v).value])
  {
    hide WireBytes, Meaning, Legal, KeyMeaning;
    var all := [k, v] + ws;
    assert all[1..] == [v] + ws && all[2..] == ws && ([v] + ws)[1..] == ws;
  }

  lemma WireFirst(w: Wire)
    requires Legal(w)
    ensures WireBytes(w) != [] && WireBytes(w)[0] != CHR_TERM
  {
  }

  lemma NumberRead(sign: seq<byte>, digits: seq<byte>, rest: seq<byte>)
    requires (sign == [] || sign == [43] || sign == [45]) && digits != [] && AllDigits(digits)
    ensures DecBig(sign + digits + ([127] + rest))
         == Done(if IsInt64(Signed(sign, DigitsValue(digits))) then Int(Signed(sign, DigitsValue(digits)))
                 else Big(Signed(sign, DigitsValue(digits))), rest)
  {
    hide DigitsValue;
    var s := sign + digits;
    FindAt(s, [127] + rest, {CHR_TERM});
    assert (s + ([127] + rest))[..|s|] == s && (s + ([127] + rest))[|s| + 1..] == rest;
    if sign == [] {
      assert s == digits && s[0] !in {43, 45};
    } else {
      assert s[1..] == digits;
    }
  }

  lemma WordRead(width: nat, n: int, rest: seq<byte>, depth: nat)
    requires Legal(Word(width, n)) && depth <= MAX_DEPTH
    ensures DecValue(WireBytes(Word(width, n)) + rest, depth) == Read(Meaning(Word(width, n)), rest)
  {
    hide BigEndian, FromBigEndian, ToSigned;
    Pow256Values();
    var payload := BigEndian(ToUnsigned(n, width), width);
    var bs := WireBytes(Word(width, n)) + rest;
    assert bs == [WordTag(width)] + (payload + rest);
    ScalarCase(bs, depth);
    RoundTripSigned(n, width, rest);
  }

  lemma LongRead(length: seq<byte>, sep: byte, s: GoBytes, rest: seq<byte>, depth: nat)
    requires IsLength(length, s) && (sep == 58 || sep == 47) && depth <= MAX_DEPTH
    ensures DecValue(length + [sep] + s + rest, depth) == Done(if sep == 58 then Text(s) else Binary(s), rest)
  {
    hide DecSized, DecValue, DigitsValue;
    assert length + [sep] + s + rest == length + ([sep] + (s + rest));
    SizedScalar(length, [sep] + (s + rest), depth);
    SizedCase(length, sep, s, rest);
  }

  /** A tag and the bytes its payload takes. */
  lemma PlainRead(tag: byte, payload: seq<byte>, rest: seq<byte>, depth: nat)
    requires depth <= MAX_DEPTH && tag < LIST_START && !(102 <= tag <= 126) && tag != 59 && tag != 60
    ensures DecValue([tag] + payload + rest, depth) == DecScalar(tag, payload + rest)
    ensures (payload + rest)[..|payload|] == payload && (payload + rest)[|payload|..] == rest
  {
    hide DecScalar;
    assert [tag] + payload + rest == [tag] + (payload + rest);
    ScalarCase([tag] + payload + rest, depth);
  }

  lemma FoldedRead(w: Wire, rest: seq<byte>, depth: nat)
    requires Legal(w) && (w.Nothing? || w.Truth? || w.Small?) && depth <= MAX_DEPTH
    ensures DecValue(WireBytes(w) + rest, depth) == Read(Meaning(w), rest)
  {
    hide DecValue, DecSized, DecBig, DecSigned;
    PlainRead(WireBytes(w)[0], [], rest, depth);
    assert WireBytes(w) + [] == WireBytes(w) && [] + rest == rest;
  }

  lemma ScalarRead(w: Wire, rest: seq<byte>, depth: nat)
    requires Legal(w) && !w.Items? && !w.Pairs? && depth <= MAX_DEPTH
    ensures DecValue(WireBytes(w) + rest, depth) == Read(Meaning(w), rest)
  {
    hide DecValue, DecSized, DecBig, DecSigned, DigitsValue, Widen, BigEndian, IsLength;
    match w
    case Nothing => FoldedRead(w, rest, depth);
    case Truth(b) => FoldedRead(w, rest, depth);
    case Small(n) => FoldedRead(w, rest, depth);
    case Word(width, n) => WordRead(width, n, rest, depth);
    case Number(sign, digits) => BigRead(w, rest, depth);
    case Single(bits) => PlainRead(66, bits, rest, depth);
    case Double(bits) => PlainRead(44, bits, rest, depth);
    case ShortText(s) => PlainRead(128 + |s|, s, rest, depth);
    case LongText(length, s) => LongRead(length, 58, s, rest, depth);
    case LongBinary(length, s) => LongRead(length, 47, s, rest, depth);
  }

  lemma BigRead(w: Wire, rest: seq<byte>, depth: nat)
    requires w.Number? && Legal(w) && depth <= MAX_DEPTH
    ensures DecValue(WireBytes(w) + rest, depth) == Read(Meaning(w), rest)
  {
    hide DecValue, DecSized, DecBig, DecSigned, DigitsValue;
    PlainRead(61, w.sign + w.digits + [127], rest, depth);
    assert [61] + (w.sign + w.digits + [127]) == WireBytes(w);
    assert w.sign + w.digits + [127] + rest == w.sign + w.digits + ([127] + rest);
    NumberRead(w.sign, w.digits, rest);
  }

  lemma FirstFits(ws: seq<Wire>, n: int)
    requires ws != [] && forall i :: 0 <= i < |ws| ==> Legal(ws[i]) && Fits(ws[i], n)
    ensures n >= 0
    ensures ItemsBytes(ws) == WireBytes(ws[0]) + ItemsBytes(ws[1..])
  {
    assert Fits(ws[0], n);
  }

  lemma {:induction false} ItemsRead(ws: seq<Wire>, terminated: bool, rest: seq<byte>, depth: nat)
    requires depth <= MAX_DEPTH && forall i :: 0 <= i < |ws| ==> Legal(ws[i]) && Fits(ws[i], MAX_DEPTH - depth - 1)
    ensures DecItems(ItemsBytes(ws) + (Trailer(terminated) + rest), if terminated then 0 else |ws|, terminated, depth)
         == Read(ItemsMeaning(ws), rest)
    decreases ws, 1
  {
    hide DecItems, DecValue, WireBytes, Meaning, Fits, Legal;
    var end := Trailer(terminated) + rest;
    if ws == [] {
      assert ItemsBytes(ws) + end == end;
      ItemsEnd(terminated, rest, depth);
    } else {
      FirstFits(ws, MAX_DEPTH - depth - 1);
      var e, after := WireBytes(ws[0]), ItemsBytes(ws[1..]) + end;
      assert ItemsBytes(ws) + end == e + after;
      WireFirst(ws[0]);
      WireRead(ws[0], after, depth + 1);
      ItemsStep(e, after, if terminated then 0 else |ws|, terminated, depth);
      ItemsRead(ws[1..], terminated, rest, depth);
    }
  }

  /** One turn of the pair loop, on two complete values. */
  lemma PairTurn(e: seq<byte>, after: seq<byte>, k: Parse<Value>, v: Parse<Value>, n: nat, terminated: bool, depth: nat, m: map<GoBytes, Value>)
    requires depth <= MAX_DEPTH && e != [] && e[0] != CHR_TERM && (terminated <==> n == 0)
    requires DecValue(e + after, depth + 1) == k
    requires k.Done? ==> DecValue(k.rest, depth + 1) == v
    ensures DecEntries(e + after, n, terminated, depth, m) ==
      if k.Fail? then Fail(k.error)
      else if v.Fail? then Fail(v.error)
      else if KeyMeaning(k.value).None? then Fail(BadKey)
      else DecEntries(v.rest, if terminated then 0 else n - 1, terminated, depth, m[KeyMeaning(k.value).value := v.value])
  {
    hide DecValue;
    assert (e + after)[0] == e[0];
  }

  lemma {:induction false} PairsRead(ws: seq<Wire>, terminated: bool, rest: seq<byte>, depth: nat, m: map<GoBytes, Value>)
    requires depth <= MAX_DEPTH && |ws| % 2 == 0
    requires forall i :: 0 <= i < |ws| ==> Legal(ws[i]) && Fits(ws[i], MAX_DEPTH - depth - 1)
    ensures DecEntries(ItemsBytes(ws) + (Trailer(terminated) + rest), if terminated then 0 else |ws| / 2, terminated, depth, m)
         == Read(PairsMeaning(ws, m), rest)
    decreases ws, 1
  {
    hide DecEntries, DecValue, WireBytes, Meaning, Fits, Legal, KeyMeaning;
    var end := Trailer(terminated) + rest;
    if ws == [] {
      assert ItemsBytes(ws) + end == end;
      ItemsEnd(terminated, rest, depth);
    } else {
      FirstFits(ws, MAX_DEPTH - depth - 1);
      assert ws == [ws[0], ws[1]] + ws[2..];
      PairsCons(ws[0], ws[1], ws[2..], m);
      hide ItemsBytes, PairsMeaning;
      var later := ItemsBytes(ws[2..]) + end;
      var after := WireBytes(ws[1]) + later;
      Regroup(WireBytes(ws[0]), WireBytes(ws[1]), ItemsBytes(ws[2..]), end);
      WireFirst(ws[0]);
      WireRead(ws[0], after, depth + 1);
      WireRead(ws[1], later, depth + 1);
      PairTurn(WireBytes(ws[0]), after, Read(Meaning(ws[0]), after), Read(Meaning(ws[1]), later),
               if terminated then 0 else |ws| / 2, terminated, depth, m);
      if Meaning(ws[0]).Some? && Meaning(ws[1]).Some? && KeyMeaning(Meaning(ws[0]).value).Some? {
        PairsRead(ws[2..], terminated, rest, depth, m[KeyMeaning(Meaning(ws[0]).value).value := Meaning(ws[1]).value]);
      }
    }
  }

  /** The tag of a container sends the decoder to its contents. */
  lemma ListTag(tag: byte, tail: seq<byte>, depth: nat)
    requires depth <= MAX_DEPTH && (tag >= 192 || tag == 59)
    ensures DecValue([tag] + tail, depth) == WrapList(DecItems(tail, if tag == 59 then 0 else tag - 192, tag == 59, depth))
  {
    hide DecItems, DecEntries, DecScalar, WrapList, WrapDict;
    assert ([tag] + tail)[1..] == tail;
  }

  lemma DictTag(tag: byte, tail: seq<byte>, depth: nat)
    requires depth <= MAX_DEPTH && (102 <= tag <= 126 || tag == 60)
    ensures DecValue([tag] + tail, depth) == WrapDict(DecEntries(tail, if tag == 60 then 0 else tag - 102, tag == 60, depth, map[]))
  {
    hide DecItems, DecEntries, DecScalar, WrapList, WrapDict;
    assert ([tag] + tail)[1..] == tail;
  }

  lemma AroundBytes(tag: byte, bytes: seq<byte>, rest: seq<byte>)
    ensures [tag] + bytes + [127] + rest == [tag] + (bytes + ([127] + rest))
    ensures [tag] + bytes + rest == [tag] + (bytes + ([] + rest))
  {
    assert bytes + ([] + rest) == bytes + rest;
  }

  lemma ListForm(ws: seq<Wire>, terminated: bool)
    requires Legal(Items(ws, terminated))
    ensures WireBytes(Items(ws, terminated)) == if terminated then [59] + ItemsBytes(ws) + [127] else [192 + |ws|] + ItemsBytes(ws)
  {
    hide ItemsBytes, Legal, BigEndian;
  }

  lemma DictForm(ws: seq<Wire>, terminated: bool)
    requires Legal(Pairs(ws, terminated))
    ensures WireBytes(Pairs(ws, terminated)) == if terminated then [60] + ItemsBytes(ws) + [127] else [102 + |ws| / 2] + ItemsBytes(ws)
  {
    hide ItemsBytes, Legal, BigEndian;
  }

  lemma TrailerIs(terminated: bool)
    ensures Trailer(terminated) == if terminated then [127] else []
  {
  }

  lemma ListBytes(tag: byte, ws: seq<Wire>, terminated: bool, rest: seq<byte>)
    requires Legal(Items(ws, terminated)) && tag == if terminated then 59 else 192 + |ws|
    ensures WireBytes(Items(ws, terminated)) + rest == [tag] + (ItemsBytes(ws) + (Trailer(terminated) + rest))
  {
    ListForm(ws, terminated);
    hide *;
    TrailerIs(terminated);
    AroundBytes(tag, ItemsBytes(ws), rest);
  }

  lemma DictBytes(tag: byte, ws: seq<Wire>, terminated: bool, rest: seq<byte>)
    requires Legal(Pairs(ws, terminated)) && tag == if terminated then 60 else 102 + |ws| / 2
    ensures WireBytes(Pairs(ws, terminated)) + rest == [tag] + (ItemsBytes(ws) + (Trailer(terminated) + rest))
  {
    DictForm(ws, terminated);
    hide *;
    TrailerIs(terminated);
    AroundBytes(tag, ItemsBytes(ws), rest);
  }

  lemma ListRead(ws: seq<Wire>, terminated: bool, rest: seq<byte>, depth: nat)
    requires depth <= MAX_DEPTH && Legal(Items(ws, terminated))
    requires DecItems(ItemsBytes(ws) + (Trailer(terminated) + rest), if terminated then 0 else |ws|, terminated, depth)
          == Read(ItemsMeaning(ws), rest)
    ensures DecValue(WireBytes(Items(ws, terminated)) + rest, depth) == Read(Meaning(Items(ws, terminated)), rest)
  {
    hide DecValue, DecItems, DecEntries, WireBytes, ItemsBytes, ItemsMeaning, Trailer;
    var tag := if terminated then 59 else 192 + |ws|;
    ListBytes(tag, ws, terminated, rest);
    ListTag(tag, ItemsBytes(ws) + (Trailer(terminated) + rest), depth);
  }

  lemma DictRead(ws: seq<Wire>, terminated: bool, rest: seq<byte>, depth: nat)
    requires depth <= MAX_DEPTH && Legal(Pairs(ws, terminated))
    requires DecEntries(ItemsBytes(ws) + (Trailer(terminated) + rest), if terminated then 0 else |ws| / 2, terminated, depth, map[])
          == Read(PairsMeaning(ws, map[]), rest)
    ensures DecValue(WireBytes(Pairs(ws, terminated)) + rest, depth) == Read(Meaning(Pairs(ws, terminated)), rest)
  {
    hide DecValue, DecItems, DecEntries, WireBytes, ItemsBytes, PairsMeaning, Trailer;
    var tag := if terminated then 60 else 102 + |ws| / 2;
    DictBytes(tag, ws, terminated, rest);
    DictTag(tag, ItemsBytes(ws) + (Trailer(terminated) + rest), depth);
  }

  /** Whatever form a peer chooses for a value, the decoder reads what the form means and
      nothing of the bytes after it; a dictionary with a key that is neither a string nor
      an integer is refused. */
  lemma {:induction false} WireRead(w: Wire, rest: seq<byte>, depth: nat)
    requires Legal(w) && Fits(w, MAX_DEPTH - depth)
    ensures DecValue(WireBytes(w) + rest, depth) == Read(Meaning(w), rest)
    decreases w, 0
  {
    hide DecValue, WireBytes, Meaning;
    if w.Items? {
      ItemsRead(w.items, w.terminated, rest, depth);
      ListRead(w.items, w.terminated, rest, depth);
    } else if w.Pairs? {
      PairsRead(w.flat, w.terminated, rest, depth, map[]);
      DictRead(w.flat, w.terminated, rest, depth);
    } else {
      ScalarRead(w, rest, depth);
    }
  }

  // ---- nothing else is read --------------------------------------------------

  /** w is a form for v that bs starts with, with `rest` after it. */
  ghost predicate Spells(w: Wire, bs: seq<byte>, v: Value, rest: seq<byte>) {
    Legal(w) && WireBytes(w) + rest == bs && Meaning(w) == Some(v)
  }

  /** What a length prefix that is accepted looks like. */
  lemma SizedParts(bs: seq<byte>)
    requires DecSized(bs).Done?
    ensures var i := Find(bs, {58, 47});
      && i < |bs| && (bs[i] == 58 || bs[i] == 47)
      && Atoi(bs[..i]).Some? && |bs| - i - 1 >= Atoi(bs[..i]).value
      && var n := Atoi(bs[..i]).value;
         DecSized(bs) == Done(if bs[i] == 47 then Binary(bs[i + 1..][..n]) else Text(bs[i + 1..][..n]), bs[i + 1..][n..])
  {
    FindFirst(bs, {SEP_TEXT, SEP_BINARY});
    hide Atoi, Find;
  }

  lemma SizedOnly(bs: seq<byte>) returns (w: Wire)
    requires DecSized(bs).Done?
    ensures (w.LongText? || w.LongBinary?) && Spells(w, bs, DecSized(bs).value, DecSized(bs).rest)
  {
    SizedParts(bs);
    hide DigitsValue, DecSized, Find;
    var i := Find(bs, {58, 47});
    var length, rest := bs[..i], bs[i + 1..];
    var n := Atoi(length).value;
    w := if bs[i] == 47 then LongBinary(length, rest[..n]) else LongText(length, rest[..n]);
    assert length + [bs[i]] + rest[..n] + rest[n..] == bs;
  }

  /** What a decimal number that is accepted looks like. */
  lemma BigParts(bs: seq<byte>) returns (i: nat)
    requires DecBig(bs).Done?
    ensures i < |bs| && bs[i] == 127 && ParseInt(bs[..i]).Some?
    ensures var n := ParseInt(bs[..i]).value;
      DecBig(bs) == Done(if MIN_INT64 <= n <= MAX_INT64 then Int(n) else Big(n), bs[i + 1..])
  {
    i := Find(bs, {127});
    FindFirst(bs, {CHR_TERM});
    hide ParseInt, Find;
  }

  lemma SignAndDigits(s: seq<byte>) returns (w: Wire)
    requires ParseInt(s).Some?
    ensures w.Number? && Legal(w) && w.sign + w.digits == s && ParseInt(s).value == Signed(w.sign, DigitsValue(w.digits))
  {
    hide DigitsValue;
    var k := if s != [] && s[0] in {43, 45} then 1 else 0;
    w := Number(s[..k], s[k..]);
  }

  lemma NumberSpelled(w: Wire, s: seq<byte>, rest: seq<byte>, bs: seq<byte>)
    requires w.Number? && Legal(w) && w.sign + w.digits == s && s + ([127] + rest) == bs
    ensures var n := Signed(w.sign, DigitsValue(w.digits));
      Spells(w, [61] + bs, if MIN_INT64 <= n <= MAX_INT64 then Int(n) else Big(n), rest)
  {
    hide DigitsValue;
    assert WireBytes(w) + rest == [61] + (s + ([127] + rest));
  }

  lemma BigOnly(bs: seq<byte>, p: Parse<Value>) returns (w: Wire)
    requires DecBig(bs) == p && p.Done?
    ensures w.Number? && Spells(w, [61] + bs, p.value, p.rest)
  {
    hide *;
    var i := BigParts(bs);
    w := SignAndDigits(bs[..i]);
    NumberSpelled(w, bs[..i], bs[i + 1..], bs);
  }

  lemma WordOnly(tag: byte, width: nat, bs: seq<byte>) returns (w: Wire)
    requires width in {1, 2, 4, 8} && tag == WordTag(width) && |bs| >= width
    ensures w.Word? && Spells(w, [tag] + bs, DecSigned(bs, width).value, DecSigned(bs, width).rest)
  {
    hide BigEndian, FromBigEndian;
    var u := FromBigEndian(bs[..width]);
    ReadBigEndian(bs[..width]);
    w := Word(width, ToSigned(u, width));
    assert [tag] + bs[..width] + bs[width..] == [tag] + bs;
  }

  lemma FoldedOnly(tag: byte, bs: seq<byte>) returns (w: Wire)
    requires tag < 44 || 67 <= tag <= 101
    ensures DecScalar(tag, bs).Done? && (w.Small? || w.Truth? || w.Nothing?)
    ensures Spells(w, [tag] + bs, DecScalar(tag, bs).value, DecScalar(tag, bs).rest)
  {
    hide DecSized, DecBig, DecSigned, Widen, BigEndian;
    w := if tag < 44 then Small(tag) else if tag == 69 then Nothing else if tag < 69 then Truth(tag == 67) else Small(69 - tag);
  }

  /** A tag and so many bytes. */
  lemma PayloadOnly(tag: byte, bs: seq<byte>) returns (w: Wire)
    requires (tag == 44 || tag == 66 || 128 <= tag < 192) && DecScalar(tag, bs).Done?
    ensures (w.ShortText? || w.Single? || w.Double?) && Spells(w, [tag] + bs, DecScalar(tag, bs).value, DecScalar(tag, bs).rest)
  {
    hide DecSized, DecBig, DecSigned, Widen, BigEndian;
    var n := if tag == 66 then 4 else if tag == 44 then 8 else tag - 128;
    assert n <= |bs|;
    assert bs[..n] + bs[n..] == bs;
    w := if tag == 66 then Single(bs[..4]) else if tag == 44 then Double(bs[..8]) else ShortText(bs[..n]);
  }

  lemma LongerScalars(tag: byte, bs: seq<byte>)
    ensures 48 <= tag <= 57 ==> DecScalar(tag, bs) == DecSized([tag] + bs)
    ensures tag == 61 ==> DecScalar(tag, bs) == DecBig(bs)
    ensures 62 <= tag <= 65 ==> DecScalar(tag, bs) == DecSigned(bs, if tag == 62 then 1 else if tag == 63 then 2 else if tag == 64 then 4 else 8)
    ensures 45 <= tag <= 47 || tag == 58 || tag == 127 ==> DecScalar(tag, bs) == Fail(BadTag)
  {
    hide DecSized, DecBig, DecSigned, Widen;
  }

  /** The form of a scalar. */
  lemma ScalarOnly(tag: byte, bs: seq<byte>) returns (w: Wire)
    requires DecScalar(tag, bs).Done? && tag < 192 && !(102 <= tag <= 126) && tag != 59 && tag != 60
    ensures !w.Items? && !w.Pairs? && Spells(w, [tag] + bs, DecScalar(tag, bs).value, DecScalar(tag, bs).rest)
  {
    hide *;
    LongerScalars(tag, bs);
    if tag < 44 || 67 <= tag <= 101 {
      w := FoldedOnly(tag, bs);
    } else if 48 <= tag <= 57 {
      w := SizedOnly([tag] + bs);
    } else if 62 <= tag <= 65 {
      var width := if tag == 62 then 1 else if tag == 63 then 2 else if tag == 64 then 4 else 8;
      WordLong(tag, bs);
      w := WordOnly(tag, width, bs);
    } else if tag == 61 {
      w := BigOnly(bs, DecBig(bs));
    } else {
      w := PayloadOnly(tag, bs);
    }
  }

  lemma WordLong(tag: byte, bs: seq<byte>)
    requires 62 <= tag <= 65 && DecScalar(tag, bs).Done?
    ensures |bs| >= if tag == 62 then 1 else if tag == 63 then 2 else if tag == 64 then 4 else 8
    ensures tag == WordTag(if tag == 62 then 1 else if tag == 63 then 2 else if tag == 64 then 4 else 8)
  {
  }

  /** One more item of a list that is accepted. */
  lemma ItemsTurn(bs: seq<byte>, n: nat, terminated: bool, depth: nat)
    requires depth <= MAX_DEPTH && (terminated ==> n == 0) && DecItems(bs, n, terminated, depth).Done?
    requires if terminated then bs[0] != 127 else n > 0
    ensures var p := DecValue(bs, depth + 1);
      && p.Done? && |p.rest| < |bs|
      && var q := DecItems(p.rest, if terminated then 0 else n - 1, terminated, depth);
         && q.Done? && DecItems(bs, n, terminated, depth) == Done([p.value] + q.value, q.rest)
  {
    hide DecValue;
  }

  lemma ItemsOver(bs: seq<byte>, n: nat, terminated: bool, depth: nat)
    requires depth <= MAX_DEPTH && (terminated ==> n == 0) && DecItems(bs, n, terminated, depth).Done?
    ensures terminated ==> bs != []
    ensures (if terminated then bs[0] == 127 else n == 0) ==>
      DecItems(bs, n, terminated, depth).value == [] && Trailer(terminated) + DecItems(bs, n, terminated, depth).rest == bs
  {
    hide DecValue;
  }

  /** The forms of a list's items. */
  lemma {:induction false} ItemsOnly(bs: seq<byte>, n: nat, terminated: bool, depth: nat) returns (ws: seq<Wire>)
    requires depth <= MAX_DEPTH && (terminated ==> n == 0) && DecItems(bs, n, terminated, depth).Done?
    ensures forall i :: 0 <= i < |ws| ==> Legal(ws[i]) && Fits(ws[i], MAX_DEPTH - depth - 1)
    ensures ItemsBytes(ws) + (Trailer(terminated) + DecItems(bs, n, terminated, depth).rest) == bs
    ensures ItemsMeaning(ws) == Some(DecItems(bs, n, terminated, depth).value)
    ensures !terminated ==> |ws| == n
    decreases MAX_DEPTH - depth, 1, n + |bs|
  {
    hide DecItems, DecValue, WireBytes, Meaning, Fits, Legal, Trailer;
    var end := Trailer(terminated) + DecItems(bs, n, terminated, depth).rest;
    ItemsOver(bs, n, terminated, depth);
    if if terminated then bs[0] == 127 else n == 0 {
      ws := [];
      assert ItemsBytes(ws) + end == end;
    } else {
      ItemsTurn(bs, n, terminated, depth);
      var p := DecValue(bs, depth + 1);
      var w := ValueOnly(bs, depth + 1, p);
      assert WireBytes(w) + p.rest == bs && Legal(w) && Meaning(w) == Some(p.value);
      var later := ItemsOnly(p.rest, if terminated then 0 else n - 1, terminated, depth);
      hide *;
      ws := [w] + later;
      ItemsCons(w, later);
      Regroup([], WireBytes(w), ItemsBytes(later), end);
    }
  }

  /** One more pair of a dictionary that is accepted. */
  lemma PairsTurn(bs: seq<byte>, n: nat, terminated: bool, depth: nat, m: map<GoBytes, Value>)
    requires depth <= MAX_DEPTH && (terminated ==> n == 0) && DecEntries(bs, n, terminated, depth, m).Done?
    requires if terminated then bs[0] != 127 else n > 0
    ensures var p := DecValue(bs, depth + 1);
      && p.Done? && |p.rest| < |bs| && KeyMeaning(p.value).Some?
      && var q := DecValue(p.rest, depth + 1);
         && q.Done? && |q.rest| < |bs|
         && DecEntries(bs, n, terminated, depth, m)
            == DecEntries(q.rest, if terminated then 0 else n - 1, terminated, depth, m[KeyMeaning(p.value).value := q.value])
  {
    hide DecValue;
  }

  lemma PairsOver(bs: seq<byte>, n: nat, terminated: bool, depth: nat, m: map<GoBytes, Value>)
    requires depth <= MAX_DEPTH && (terminated ==> n == 0) && DecEntries(bs, n, terminated, depth, m).Done?
    ensures terminated ==> bs != []
    ensures (if terminated then bs[0] == 127 else n == 0) ==>
      DecEntries(bs, n, terminated, depth, m).value == m && Trailer(terminated) + DecEntries(bs, n, terminated, depth, m).rest == bs
  {
    hide DecValue;
  }

  /** The forms of a dictionary's pairs. */
  lemma {:induction false} PairsOnly(bs: seq<byte>, n: nat, terminated: bool, depth: nat, m: map<GoBytes, Value>) returns (ws: seq<Wire>)
    requires depth <= MAX_DEPTH && (terminated ==> n == 0) && DecEntries(bs, n, terminated, depth, m).Done?
    ensures |ws| % 2 == 0 && forall i :: 0 <= i < |ws| ==> Legal(ws[i]) && Fits(ws[i], MAX_DEPTH - depth - 1)
    ensures ItemsBytes(ws) + (Trailer(terminated) + DecEntries(bs, n, terminated, depth, m).rest) == bs
    ensures PairsMeaning(ws, m) == Some(DecEntries(bs, n, terminated, depth, m).value)
    ensures !terminated ==> |ws| == 2 * n
    decreases MAX_DEPTH - depth, 1, n + |bs|
  {
    hide DecEntries, DecValue, WireBytes, Meaning, Fits, Legal, Trailer, KeyMeaning;
    var end := Trailer(terminated) + DecEntries(bs, n, terminated, depth, m).rest;
    PairsOver(bs, n, terminated, depth, m);
    if if terminated then bs[0] == 127 else n == 0 {
      ws := [];
      assert ItemsBytes(ws) + end == end;
    } else {
      PairsTurn(bs, n, terminated, depth, m);
      var p := DecValue(bs, depth + 1);
      var q := DecValue(p.rest, depth + 1);
      var k := ValueOnly(bs, depth + 1, p);
      var v := ValueOnly(p.rest, depth + 1, q);
      var later := PairsOnly(q.rest, if terminated then 0 else n - 1, terminated, depth, m[KeyMeaning(p.value).value := q.value]);
      ws := [k, v] + later;
      PairsCons(k, v, later, m);
      hide ItemsBytes, PairsMeaning;
      Regroup(WireBytes(k), WireBytes(v), ItemsBytes(later), end);
    }
  }

  lemma TagCases(tag: byte, tail: seq<byte>, depth: nat, p: Parse<Value>)
    requires DecValue([tag] + tail, depth) == p && p.Done?
    ensures depth <= MAX_DEPTH
    ensures
      if tag >= 192 || tag == 59 then
        var q := DecItems(tail, if tag == 59 then 0 else tag - 192, tag == 59, depth);
        q.Done? && p == Done(List(q.value), q.rest)
      else if 102 <= tag <= 126 || tag == 60 then
        var q := DecEntries(tail, if tag == 60 then 0 else tag - 102, tag == 60, depth, map[]);
        q.Done? && p == Done(TextMap(q.value), q.rest)
      else p == DecScalar(tag, tail)
  {
    hide DecItems, DecEntries, DecScalar;
    assert ([tag] + tail)[1..] == tail;
  }

  lemma ListSpelled(ws: seq<Wire>, tag: byte, vs: seq<Value>, bs: seq<byte>, rest: seq<byte>, n: nat)
    requires forall i :: 0 <= i < |ws| ==> Legal(ws[i]) && Fits(ws[i], n - 1)
    requires tag == 59 || tag == 192 + |ws|
    requires ItemsMeaning(ws) == Some(vs) && bs == [tag] + (ItemsBytes(ws) + (Trailer(tag == 59) + rest))
    ensures Fits(Items(ws, tag == 59), n) && Spells(Items(ws, tag == 59), bs, List(vs), rest)
  {
    hide ItemsBytes, ItemsMeaning, WireBytes, Trailer;
    ListBytes(tag, ws, tag == 59, rest);
  }

  lemma DictSpelled(ws: seq<Wire>, tag: byte, m: map<GoBytes, Value>, bs: seq<byte>, rest: seq<byte>, n: nat)
    requires |ws| % 2 == 0 && forall i :: 0 <= i < |ws| ==> Legal(ws[i]) && Fits(ws[i], n - 1)
    requires tag == 60 || (tag == 102 + |ws| / 2 && tag <= 126)
    requires PairsMeaning(ws, map[]) == Some(m) && bs == [tag] + (ItemsBytes(ws) + (Trailer(tag == 60) + rest))
    ensures Fits(Pairs(ws, tag == 60), n) && Spells(Pairs(ws, tag == 60), bs, TextMap(m), rest)
  {
    hide ItemsBytes, PairsMeaning, WireBytes, Trailer;
    DictBytes(tag, ws, tag == 60, rest);
  }

  lemma FitsScalar(w: Wire, n: int)
    requires !w.Items? && !w.Pairs? && n >= 0
    ensures Fits(w, n)
  {
  }

  lemma {:induction false} ListOnly(tag: byte, tail: seq<byte>, depth: nat, p: Parse<seq<Value>>) returns (w: Wire)
    requires depth <= MAX_DEPTH && (tag >= 192 || tag == 59) && p.Done?
    requires p == DecItems(tail, if tag == 59 then 0 else tag - 192, tag == 59, depth)
    ensures Fits(w, MAX_DEPTH - depth) && Spells(w, [tag] + tail, List(p.value), p.rest)
    decreases MAX_DEPTH - depth, 2, 0
  {
    hide *;
    var ws := ItemsOnly(tail, if tag == 59 then 0 else tag - 192, tag == 59, depth);
    w := Items(ws, tag == 59);
    ListSpelled(ws, tag, p.value, [tag] + tail, p.rest, MAX_DEPTH - depth);
  }

  lemma {:induction false} DictOnly(tag: byte, tail: seq<byte>, depth: nat, p: Parse<map<GoBytes, Value>>) returns (w: Wire)
    requires depth <= MAX_DEPTH && (102 <= tag <= 126 || tag == 60) && p.Done?
    requires p == DecEntries(tail, if tag == 60 then 0 else tag - 102, tag == 60, depth, map[])
    ensures Fits(w, MAX_DEPTH - depth) && Spells(w, [tag] + tail, TextMap(p.value), p.rest)
    decreases MAX_DEPTH - depth, 2, 0
  {
    hide *;
    var ws := PairsOnly(tail, if tag == 60 then 0 else tag - 102, tag == 60, depth, map[]);
    w := Pairs(ws, tag == 60);
    DictSpelled(ws, tag, p.value, [tag] + tail, p.rest, MAX_DEPTH - depth);
  }

  /** Whatever the decoder accepts is spelled by a form of the grammar. */
  lemma {:induction false} ValueOnly(bs: seq<byte>, depth: nat, p: Parse<Value>) returns (w: Wire)
    requires bs != [] && DecValue(bs, depth) == p && p.Done?
    ensures Fits(w, MAX_DEPTH - depth) && Spells(w, bs, p.value, p.rest)
    decreases Max(MAX_DEPTH + 1 - depth, 0), 0, |bs|
  {
    var tag, tail := bs[0], bs[1..];
    assert [tag] + tail == bs;
    TagCases(tag, tail, depth, p);
    hide *;
    if tag >= 192 || tag == 59 {
      w := ListOnly(tag, tail, depth, DecItems(tail, if tag == 59 then 0 else tag - 192, tag == 59, depth));
    } else if 102 <= tag <= 126 || tag == 60 {
      w := DictOnly(tag, tail, depth, DecEntries(tail, if tag == 60 then 0 else tag - 102, tag == 60, depth, map[]));
    } else {
      w := ScalarOnly(tag, tail);
      FitsScalar(w, MAX_DEPTH - depth);
    }
  }

  /** A packet decodes to v if and only if it is a form of the grammar that means v and
      has nothing inside more than 64 containers. */
  lemma AcceptedExactly(bs: seq<byte>, v: Value)
    ensures Decode(bs) == Ok(v) <==> exists w :: Legal(w) && Fits(w, 64) && WireBytes(w) == bs && Meaning(w) == Some(v)
  {
    hide DecValue, WireBytes, Meaning, Fits, Legal;
    if Decode(bs) == Ok(v) {
      var w := ValueOnly(bs, 0, DecValue(bs, 0));
      assert WireBytes(w) + [] == WireBytes(w);
    }
    if w :| Legal(w) && Fits(w, 64) && WireBytes(w) == bs && Meaning(w) == Some(v) {
      WireRead(w, [], 0);
      assert WireBytes(w) + [] == WireBytes(w);
    }
  }

  /** No accepted packet is the beginning of another one. */
  lemma NothingBehind(bs: seq<byte>, tail: seq<byte>)
    requires Decode(bs).Ok? && tail != []
    ensures Decode(bs + tail) == Err(Trailing)
  {
    hide DecValue, WireBytes, Meaning, Fits, Legal;
    var w := ValueOnly(bs, 0, DecValue(bs, 0));
    assert WireBytes(w) + [] == WireBytes(w);
    WireRead(w, tail, 0);
  }
}
