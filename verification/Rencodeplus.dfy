/** The rencodeplus wire format: the values a packet is made of, what their
    encoding is, what a byte string decodes to, and what decoding normalises. */
module Rencodeplus {
  import opened Bytes

  // ---- tags ----------------------------------------------------------------

  const CHR_FLOAT64: byte := 44
  const CHR_LIST: byte := 59
  const CHR_DICT: byte := 60
  const CHR_INT: byte := 61
  const CHR_INT1: byte := 62
  const CHR_INT2: byte := 63
  const CHR_INT4: byte := 64
  const CHR_INT8: byte := 65
  const CHR_FLOAT32: byte := 66
  const CHR_TRUE: byte := 67
  const CHR_FALSE: byte := 68
  const CHR_NONE: byte := 69
  const CHR_TERM: byte := 127

  // A small value or length is folded into the tag, counted from the start of its range.
  const INT_POS_COUNT: int := 44
  const INT_NEG_START: int := 70
  const INT_NEG_COUNT: int := 32
  const DICT_START: int := 102
  const DICT_COUNT: int := 25
  const STR_START: int := 128
  const STR_COUNT: int := 64
  const LIST_START: int := 192
  const LIST_COUNT: int := 64

  const SEP_TEXT: byte := 58      // ':'
  const SEP_BINARY: byte := 47    // '/'

  const MAX_DEPTH: int := 64

  // ---- values --------------------------------------------------------------

  type Bits32 = s: seq<byte> | |s| == 4 witness [0, 0, 0, 0]
  type Bits64 = s: seq<byte> | |s| == 8 witness [0, 0, 0, 0, 0, 0, 0, 0]

  datatype Entry = Entry(key: GoBytes, value: Value)

  /** A Go value of type any, as far as the encoder tells them apart. The signed
      integer types share Int, the unsigned ones share Uint. */
  datatype Value =
    | Nil
    | Bool(b: bool)
    | Text(text: GoBytes)
    | Binary(data: GoBytes)
    | Int(n: int64)
    | Uint(u: uint64)
    | Big(big: int)
    | NilBig
    | Float(bits: Bits64)
    | Float32(bits32: Bits32)
    | List(items: seq<Value>)
    | Strings(strings: seq<GoBytes>)
    | Ints(ints: seq<int64>)
    | Dict(entries: seq<Entry>)
    | TextMap(texts: map<GoBytes, Value>)
    | IntMap(nums: map<int64, Value>)
    | Unsupported

  predicate IsList(v: Value) { v.List? || v.Strings? || v.Ints? }

  predicate IsDict(v: Value) { v.Dict? || v.TextMap? || v.IntMap? }

  // ---- dictionary keys, in the order they are written -----------------------

  datatype Key = TextKey(s: GoBytes) | IntKey(n: int64)

  function KeyValue(k: Key): Value {
    match k case TextKey(s) => Text(s) case IntKey(n) => Int(n)
  }

  /** The string a decoded key becomes: integer keys turn into decimal text. */
  function KeyText(k: Key): GoBytes {
    match k case TextKey(s) => s case IntKey(n) => FormatInt(n)
  }

  /** Go's < on strings. */
  predicate TextLess(a: seq<byte>, b: seq<byte>) {
    b != [] && (a == [] || a[0] < b[0] || (a[0] == b[0] && TextLess(a[1..], b[1..])))
  }

  predicate KeyLess(a: Key, b: Key) {
    match (a, b)
    case (TextKey(s), TextKey(t)) => TextLess(s, t)
    case (IntKey(m), IntKey(n)) => m < n
    case (IntKey(_), TextKey(_)) => true
    case (TextKey(_), IntKey(_)) => false
  }

  lemma {:induction false} TextLessTotal(a: seq<byte>, b: seq<byte>)
    ensures TextLess(a, b) || a == b || TextLess(b, a)
    ensures !(TextLess(a, b) && TextLess(b, a))
    ensures !TextLess(a, a)
  {
    if a == [] || b == [] {
    } else {
      TextLessTotal(a[1..], b[1..]);
      assert a == [a[0]] + a[1..] && b == [b[0]] + b[1..];
    }
    if a == [] {
    } else {
      TextLessTotal(a[1..], a[1..]);
    }
  }

  lemma {:induction false} TextLessTransitive(a: seq<byte>, b: seq<byte>, c: seq<byte>)
    requires TextLess(a, b) && TextLess(b, c)
    ensures TextLess(a, c)
  {
    if a == [] || !(a[0] == b[0] == c[0]) {
    } else {
      TextLessTransitive(a[1..], b[1..], c[1..]);
    }
  }

  lemma KeyLessOrder(a: Key, b: Key, c: Key)
    ensures KeyLess(a, b) || a == b || KeyLess(b, a)
    ensures !(KeyLess(a, b) && KeyLess(b, a)) && !KeyLess(a, a)
    ensures KeyLess(a, b) && KeyLess(b, c) ==> KeyLess(a, c)
  {
    if a.TextKey? && b.TextKey? {
      TextLessTotal(a.s, b.s);
      if c.TextKey? && TextLess(a.s, b.s) && TextLess(b.s, c.s) {
        TextLessTransitive(a.s, b.s, c.s);
      }
    }
    if a.TextKey? {
      TextLessTotal(a.s, a.s);
    }
  }

  ghost predicate Sorted(ks: seq<Key>) {
    forall i, j :: 0 <= i < j < |ks| ==> KeyLess(ks[i], ks[j])
  }

  lemma {:induction false} LeastKey(s: set<Key>) returns (k: Key)
    requires s != {}
    ensures k in s && forall j :: j in s ==> j == k || KeyLess(k, j)
  {
    k :| k in s;
    var rest := s - {k};
    if rest != {} {
      var l := LeastKey(rest);
      KeyLessOrder(k, l, l);
      if KeyLess(l, k) {
        forall j | j in s ensures j == l || KeyLess(l, j) { assert j == k || j in rest; }
        k := l;
      } else {
        forall j | j in s ensures j == k || KeyLess(k, j) {
          assert j == k || j in rest;
          KeyLessOrder(k, l, j);
        }
      }
    } else {
      assert s == {k};
    }
  }

  ghost function Least(s: set<Key>): Key
    requires s != {}
  {
    assert exists k :: k in s && forall j :: j in s ==> j == k || KeyLess(k, j) by {
      var k := LeastKey(s);
    }
    var k :| k in s && forall j :: j in s ==> j == k || KeyLess(k, j);
    k
  }

  /** The keys of s in increasing order. */
  ghost function SortKeys(s: set<Key>): seq<Key> {
    if s == {} then [] else
      assert Least(s) in s by { var k := LeastKey(s); }
      [Least(s)] + SortKeys(s - {Least(s)})
  }

  lemma {:induction false} SortKeysSorts(s: set<Key>)
    ensures |SortKeys(s)| == |s|
    ensures forall k :: k in SortKeys(s) <==> k in s
    ensures Sorted(SortKeys(s))
  {
    if s == {} {
    } else {
      var l := LeastKey(s);
      var rest := SortKeys(s - {Least(s)});
      SortKeysSorts(s - {Least(s)});
      assert SortKeys(s) == [Least(s)] + rest;
      forall j | 0 <= j < |rest| ensures KeyLess(Least(s), rest[j]) { assert rest[j] in rest; }
    }
  }

  function TextKeys(m: map<GoBytes, Value>): set<Key> { set k | k in m :: TextKey(k) }

  function IntKeys(m: map<int64, Value>): set<Key> { set k | k in m :: IntKey(k) }

  ghost function Keys(v: Value): seq<Key>
    requires IsDict(v)
  {
    match v
    case Dict(es) => seq(|es|, i requires 0 <= i < |es| => TextKey(es[i].key))
    case TextMap(m) => SortKeys(TextKeys(m))
    case IntMap(m) => SortKeys(IntKeys(m))
  }

  lemma KeysOfMap(v: Value, i: nat)
    requires v.TextMap? || v.IntMap?
    requires i < |Keys(v)|
    ensures v.TextMap? ==> Keys(v)[i].TextKey? && Keys(v)[i].s in v.texts
    ensures v.IntMap? ==> Keys(v)[i].IntKey? && Keys(v)[i].n in v.nums
  {
    SortKeysSorts(if v.TextMap? then TextKeys(v.texts) else IntKeys(v.nums));
    assert Keys(v)[i] in Keys(v);
  }

  /** The value written after key number i. */
  ghost function EntryValue(v: Value, i: nat): (e: Value)
    requires IsDict(v) && i < |Keys(v)|
    ensures e < v
  {
    match v
    case Dict(es) => es[i].value
    case TextMap(m) => KeysOfMap(v, i); m[Keys(v)[i].s]
    case IntMap(m) => KeysOfMap(v, i); m[Keys(v)[i].n]
  }

  // ---- encoding ------------------------------------------------------------

  /** What the encoder accepts. */
  ghost predicate Encodable(v: Value) {
    match v
    case Uint(u) => u <= MAX_INT64
    case NilBig => false
    case Unsupported => false
    case List(items) => forall i :: 0 <= i < |items| ==> Encodable(items[i])
    case Dict(es) => forall i :: 0 <= i < |es| ==> Encodable(es[i].value)
    case TextMap(m) => forall k :: k in m ==> Encodable(m[k])
    case IntMap(m) => forall k :: k in m ==> Encodable(m[k])
    case _ => true
  }

  lemma EncodableEntry(v: Value, i: nat)
    requires IsDict(v) && Encodable(v) && i < |Keys(v)|
    ensures Encodable(EntryValue(v, i))
  {
    if !v.Dict? {
      KeysOfMap(v, i);
    }
  }

  lemma Pow256Values()
    ensures Pow256(1) == 0x100 && Pow256(2) == 0x1_0000
    ensures Pow256(4) == 0x1_0000_0000 && Pow256(8) == 0x1_0000_0000_0000_0000
  {
    assert Pow256(1) == 256 * Pow256(0);
    assert Pow256(2) == 256 * Pow256(1);
    assert Pow256(3) == 256 * Pow256(2);
    assert Pow256(4) == 256 * Pow256(3);
    assert Pow256(5) == 256 * Pow256(4);
    assert Pow256(6) == 256 * Pow256(5);
    assert Pow256(7) == 256 * Pow256(6);
    assert Pow256(8) == 256 * Pow256(7);
  }

  function EncInt(n: int64): seq<byte> {
    Pow256Values();
    if 0 <= n < INT_POS_COUNT then [n]
    else if -INT_NEG_COUNT <= n < 0 then [INT_NEG_START - 1 - n]
    else if -0x80 <= n < 0x80 then [CHR_INT1] + BigEndian(ToUnsigned(n, 1), 1)
    else if -0x8000 <= n < 0x8000 then [CHR_INT2] + BigEndian(ToUnsigned(n, 2), 2)
    else if -0x8000_0000 <= n < 0x8000_0000 then [CHR_INT4] + BigEndian(ToUnsigned(n, 4), 4)
    else [CHR_INT8] + BigEndian(ToUnsigned(n, 8), 8)
  }

  predicate IsInt64(n: int) { MIN_INT64 <= n <= MAX_INT64 }

  function EncBig(n: int): seq<byte> {
    if IsInt64(n) then EncInt(n) else [CHR_INT] + FormatInt(n) + [CHR_TERM]
  }

  function EncText(s: GoBytes): seq<byte> {
    if |s| < STR_COUNT then [STR_START + |s|] + s else Decimal(|s|) + [SEP_TEXT] + s
  }

  function EncBinary(s: GoBytes): seq<byte> {
    Decimal(|s|) + [SEP_BINARY] + s
  }

  /** The fraction of a subnormal float32 after at most `steps` doublings, and how
      many of them were left over. */
  function Normalise(m: nat, steps: nat): (r: (nat, nat))
    requires m < 0x80_0000
    ensures r.0 < 0x80_0000 && r.1 <= steps
    decreases steps
  {
    if steps == 0 then (m, 0)
    else if 2 * m >= 0x80_0000 then (2 * m - 0x80_0000, steps - 1)
    else Normalise(2 * m, steps - 1)
  }

  /** The float64 with the value of a float32, both as their IEEE-754 bits. */
  function Widen(b: Bits32): Bits64 {
    Pow256Values();
    var u := FromBigEndian(b);
    var sign, e, m := u / 0x8000_0000, (u / 0x80_0000) % 0x100, u % 0x80_0000;
    var wide :=
      if e == 0xff then (0x7ff, if m == 0 then 0 else if m < 0x40_0000 then m + 0x40_0000 else m)
      else if e != 0 then (e + 0x380, m)
      else if m == 0 then (0, 0)
      else var (f, left) := Normalise(m, 23); (0x381 - (23 - left), f);
    BigEndian(sign * 0x8000_0000_0000_0000 + wide.0 * 0x10_0000_0000_0000 + wide.1 * 0x2000_0000, 8)
  }

  function ListHeader(n: nat): seq<byte> {
    if n < LIST_COUNT then [LIST_START + n] else [CHR_LIST]
  }

  function ListTrailer(n: nat): seq<byte> {
    if n < LIST_COUNT then [] else [CHR_TERM]
  }

  function DictHeader(n: nat): seq<byte> {
    if n < DICT_COUNT then [DICT_START + n] else [CHR_DICT]
  }

  function DictTrailer(n: nat): seq<byte> {
    if n < DICT_COUNT then [] else [CHR_TERM]
  }

  function Count(v: Value): nat
    requires IsList(v)
  {
    match v case List(l) => |l| case Strings(l) => |l| case Ints(l) => |l|
  }

  /** The encoding of v. */
  ghost function Enc(v: Value): seq<byte>
    requires Encodable(v)
    decreases v
  {
    match v
    case Nil => [CHR_NONE]
    case Bool(b) => [if b then CHR_TRUE else CHR_FALSE]
    case Text(s) => EncText(s)
    case Binary(s) => EncBinary(s)
    case Int(n) => EncInt(n)
    case Uint(u) => EncInt(u)
    case Big(n) => EncBig(n)
    case Float(bits) => [CHR_FLOAT64] + bits
    case Float32(bits) => [CHR_FLOAT64] + Widen(bits)
    case List(_) => ListHeader(Count(v)) + EncItems(v, 0) + ListTrailer(Count(v))
    case Strings(_) => ListHeader(Count(v)) + EncItems(v, 0) + ListTrailer(Count(v))
    case Ints(_) => ListHeader(Count(v)) + EncItems(v, 0) + ListTrailer(Count(v))
    case Dict(_) => DictHeader(|Keys(v)|) + EncEntries(v, 0) + DictTrailer(|Keys(v)|)
    case TextMap(_) => DictHeader(|Keys(v)|) + EncEntries(v, 0) + DictTrailer(|Keys(v)|)
    case IntMap(_) => DictHeader(|Keys(v)|) + EncEntries(v, 0) + DictTrailer(|Keys(v)|)
  }

  /** The encoding of item number i of a list. */
  ghost function EncItem(v: Value, i: nat): seq<byte>
    requires IsList(v) && Encodable(v) && i < Count(v)
    decreases v, 0
  {
    match v
    case List(l) => Enc(l[i])
    case Strings(l) => EncText(l[i])
    case Ints(l) => EncInt(l[i])
  }

  /** The encodings of the items from number i on. */
  ghost function EncItems(v: Value, i: nat): seq<byte>
    requires IsList(v) && Encodable(v) && i <= Count(v)
    decreases v, Count(v) - i + 1
  {
    if i == Count(v) then [] else EncItem(v, i) + EncItems(v, i + 1)
  }

  function EncKey(k: Key): seq<byte> {
    match k case TextKey(s) => EncText(s) case IntKey(n) => EncInt(n)
  }

  /** The encodings of the key/value pairs from number i on. */
  ghost function EncEntries(v: Value, i: nat): seq<byte>
    requires IsDict(v) && Encodable(v) && i <= |Keys(v)|
    decreases v, |Keys(v)| - i
  {
    if i == |Keys(v)| then [] else
      EncodableEntry(v, i);
      EncKey(Keys(v)[i]) + Enc(EntryValue(v, i)) + EncEntries(v, i + 1)
  }

  // ---- decoding ------------------------------------------------------------

  datatype DecodeError = Truncated | TooDeep | BadLength | BadBignum | BadTag | BadKey | Trailing

  /** What reading one thing off the front of a byte string gives: the thing and
      the bytes after it, or an error. */
  datatype Parse<+T> = Done(value: T, rest: seq<byte>) | Fail(error: DecodeError)

  /** The position of the first byte of bs that is one of stops, |bs| if none is. */
  function Find(bs: seq<byte>, stops: set<byte>): (i: nat)
    ensures i <= |bs|
  {
    if bs == [] || bs[0] in stops then 0 else 1 + Find(bs[1..], stops)
  }

  lemma {:induction false} FindFirst(bs: seq<byte>, stops: set<byte>)
    ensures forall j :: 0 <= j < Find(bs, stops) ==> bs[j] !in stops
    ensures Find(bs, stops) < |bs| ==> bs[Find(bs, stops)] in stops
  {
    if bs == [] || bs[0] in stops {
    } else {
      FindFirst(bs[1..], stops);
      forall j | 0 <= j < Find(bs, stops) ensures bs[j] !in stops {
        assert j > 0 ==> bs[j] == bs[1..][j - 1];
      }
    }
  }

  function DecSigned(bs: seq<byte>, k: nat): Parse<Value>
    requires k in {1, 2, 4, 8}
  {
    Pow256Values();
    if |bs| < k then Fail(Truncated)
    else Done(Int(ToSigned(FromBigEndian(bs[..k]), k)), bs[k..])
  }

  /** "<decimal length><separator><payload>". */
  function DecSized(bs: seq<byte>): Parse<Value> {
    var i := Find(bs, {SEP_TEXT, SEP_BINARY});
    if i == |bs| then Fail(Truncated) else
      match Atoi(bs[..i])
      case None => Fail(BadLength)
      case Some(n) =>
        var rest := bs[i + 1..];
        if |rest| < n then Fail(Truncated)
        else if bs[i] == SEP_BINARY then Done(Binary(rest[..n]), rest[n..])
        else Done(Text(rest[..n]), rest[n..])
  }

  /** Decimal text up to CHR_TERM. */
  function DecBig(bs: seq<byte>): Parse<Value> {
    var i := Find(bs, {CHR_TERM});
    if i == |bs| then Fail(Truncated) else
      match ParseInt(bs[..i])
      case None => Fail(BadBignum)
      case Some(n) => Done(if IsInt64(n) then Int(n) else Big(n), bs[i + 1..])
  }

  /** Everything but the containers: the payload after a tag. */
  function DecScalar(tag: byte, bs: seq<byte>): Parse<Value> {
    if tag < INT_POS_COUNT then Done(Int(tag), bs)
    else if INT_NEG_START <= tag < INT_NEG_START + INT_NEG_COUNT then Done(Int(-(tag - INT_NEG_START) - 1), bs)
    else if STR_START <= tag < STR_START + STR_COUNT then
      (if |bs| < tag - STR_START then Fail(Truncated)
       else Done(Text(bs[..tag - STR_START]), bs[tag - STR_START..]))
    else if 48 <= tag <= 57 then DecSized([tag] + bs)
    else if tag == CHR_NONE then Done(Nil, bs)
    else if tag == CHR_TRUE then Done(Bool(true), bs)
    else if tag == CHR_FALSE then Done(Bool(false), bs)
    else if tag == CHR_INT1 then DecSigned(bs, 1)
    else if tag == CHR_INT2 then DecSigned(bs, 2)
    else if tag == CHR_INT4 then DecSigned(bs, 4)
    else if tag == CHR_INT8 then DecSigned(bs, 8)
    else if tag == CHR_INT then DecBig(bs)
    else if tag == CHR_FLOAT32 then
      (if |bs| < 4 then Fail(Truncated) else Done(Float(Widen(bs[..4])), bs[4..]))
    else if tag == CHR_FLOAT64 then
      (if |bs| < 8 then Fail(Truncated) else Done(Float(bs[..8]), bs[8..]))
    else Fail(BadTag)
  }

  /** rest is what is left of bs after some of its front is taken off. */
  predicate Suffix(rest: seq<byte>, bs: seq<byte>) {
    |rest| <= |bs| && bs[|bs| - |rest|..] == rest
  }

  lemma SizedAdvances(bs: seq<byte>)
    requires bs != [] && bs[0] !in {SEP_TEXT, SEP_BINARY}
    ensures DecSized(bs).Done? ==> Suffix(DecSized(bs).rest, bs[1..])
  {
    var i := Find(bs, {SEP_TEXT, SEP_BINARY});
    FindFirst(bs, {SEP_TEXT, SEP_BINARY});
    if i < |bs| {
      hide Atoi;
      assert Suffix(bs[i + 1..], bs[1..]);
      if Atoi(bs[..i]).Some? && |bs[i + 1..]| >= Atoi(bs[..i]).value {
        assert Suffix(bs[i + 1..][Atoi(bs[..i]).value..], bs[1..]);
      }
    }
  }

  lemma ScalarAdvances(tag: byte, bs: seq<byte>)
    ensures DecScalar(tag, bs).Done? ==> Suffix(DecScalar(tag, bs).rest, bs)
  {
    hide DecSized, Widen, ToSigned, FromBigEndian, ParseInt, Find;
    if 48 <= tag <= 57 {
      SizedAdvances([tag] + bs);
      assert ([tag] + bs)[1..] == bs;
    }
  }

  /** The value at the front of bs, inside `depth` containers. */
  function DecValue(bs: seq<byte>, depth: nat): (p: Parse<Value>)
    ensures p.Done? ==> |p.rest| < |bs| && Suffix(p.rest, bs) && depth <= MAX_DEPTH
    decreases Max(MAX_DEPTH + 1 - depth, 0), 0, |bs|
  {
    if depth > MAX_DEPTH then Fail(TooDeep)
    else if bs == [] then Fail(Truncated) else
      var tag, rest := bs[0], bs[1..];
      if tag >= LIST_START then WrapList(DecItems(rest, tag - LIST_START, false, depth))
      else if DICT_START <= tag < DICT_START + DICT_COUNT then
        WrapDict(DecEntries(rest, tag - DICT_START, false, depth, map[]))
      else if tag == CHR_LIST then WrapList(DecItems(rest, 0, true, depth))
      else if tag == CHR_DICT then WrapDict(DecEntries(rest, 0, true, depth, map[]))
      else
        ScalarAdvances(tag, rest);
        DecScalar(tag, rest)
  }

  function WrapList(p: Parse<seq<Value>>): Parse<Value> {
    match p case Done(items, rest) => Done(List(items), rest) case Fail(e) => Fail(e)
  }

  function WrapDict(p: Parse<map<GoBytes, Value>>): Parse<Value> {
    match p case Done(m, rest) => Done(TextMap(m), rest) case Fail(e) => Fail(e)
  }

  /** n items, or items up to CHR_TERM, of a list inside `depth` containers. */
  function DecItems(bs: seq<byte>, n: nat, terminated: bool, depth: nat): (p: Parse<seq<Value>>)
    requires depth <= MAX_DEPTH
    ensures p.Done? ==> Suffix(p.rest, bs)
    decreases MAX_DEPTH - depth, 1, n + |bs|
  {
    if terminated && bs == [] then Fail(Truncated)
    else if terminated && bs[0] == CHR_TERM then Done([], bs[1..])
    else if !terminated && n == 0 then Done([], bs)
    else match DecValue(bs, depth + 1)
      case Fail(e) => Fail(e)
      case Done(v, rest) =>
        match DecItems(rest, if terminated then 0 else n - 1, terminated, depth)
        case Fail(e) => Fail(e)
        case Done(vs, rest') => Done([v] + vs, rest')
  }

  /** The string a dictionary key stands for. */
  function KeyOf(k: Value): Option<GoBytes> {
    match k
    case Text(s) => Some(s)
    case Binary(s) => Some(s)
    case Int(n) => Some(FormatInt(n))
    case _ => None
  }

  /** n pairs, or pairs up to CHR_TERM, entered into m one after another. */
  function DecEntries(bs: seq<byte>, n: nat, terminated: bool, depth: nat, m: map<GoBytes, Value>)
    : (p: Parse<map<GoBytes, Value>>)
    requires depth <= MAX_DEPTH
    ensures p.Done? ==> Suffix(p.rest, bs)
    decreases MAX_DEPTH - depth, 1, n + |bs|
  {
    if terminated && bs == [] then Fail(Truncated)
    else if terminated && bs[0] == CHR_TERM then Done(m, bs[1..])
    else if !terminated && n == 0 then Done(m, bs)
    else match DecValue(bs, depth + 1)
      case Fail(e) => Fail(e)
      case Done(k, rest) =>
        match DecValue(rest, depth + 1)
        case Fail(e) => Fail(e)
        case Done(v, rest') =>
          match KeyOf(k)
          case None => Fail(BadKey)
          case Some(s) => DecEntries(rest', if terminated then 0 else n - 1, terminated, depth, m[s := v])
  }

  /** A complete value, with nothing after it. */
  function Decode(bs: seq<byte>): Result<Value, DecodeError> {
    match DecValue(bs, 0)
    case Fail(e) => Err(e)
    case Done(v, rest) => if rest == [] then Ok(v) else Err(Trailing)
  }

  // ---- normal form ---------------------------------------------------------

  /** What v has become once it has been sent and received. */
  ghost function Norm(v: Value): Value
    requires Encodable(v)
    decreases v
  {
    match v
    case Uint(u) => Int(u)
    case Big(n) => if IsInt64(n) then Int(n) else v
    case Float32(bits) => Float(Widen(bits))
    case List(items) => List(seq(|items|, i requires 0 <= i < |items| => Norm(items[i])))
    case Strings(l) => List(seq(|l|, i requires 0 <= i < |l| => Text(l[i])))
    case Ints(l) => List(seq(|l|, i requires 0 <= i < |l| => Int(l[i])))
    case Dict(_) => TextMap(NormEntries(v, 0, map[]))
    case TextMap(_) => TextMap(NormEntries(v, 0, map[]))
    case IntMap(_) => TextMap(NormEntries(v, 0, map[]))
    case _ => v
  }

  /** m after the pairs of v from number i on are entered into it. */
  ghost function NormEntries(v: Value, i: nat, m: map<GoBytes, Value>): map<GoBytes, Value>
    requires IsDict(v) && Encodable(v) && i <= |Keys(v)|
    decreases v, |Keys(v)| - i
  {
    if i == |Keys(v)| then m else
      EncodableEntry(v, i);
      NormEntries(v, i + 1, m[KeyText(Keys(v)[i]) := Norm(EntryValue(v, i))])
  }

  /** No value inside v lies inside more than n containers. */
  ghost predicate Shallow(v: Value, n: int)
    decreases v
  {
    n >= 0 &&
    match v
    case List(items) => forall i :: 0 <= i < |items| ==> Shallow(items[i], n - 1)
    case Strings(l) => l == [] || n >= 1
    case Ints(l) => l == [] || n >= 1
    case Dict(es) => forall i :: 0 <= i < |es| ==> Shallow(es[i].value, n - 1)
    case TextMap(m) => forall k :: k in m ==> Shallow(m[k], n - 1)
    case IntMap(m) => forall k :: k in m ==> Shallow(m[k], n - 1)
    case _ => true
  }
}
