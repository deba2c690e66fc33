/** The rencodeplus encoder and decoder as they run: loops that append to a
    buffer, and a decoder object whose position every method advances. Each is
    proved to compute what Rencodeplus defines. */
module Codec {
  import opened Bytes
  import opened Rencodeplus
  import opened RencodeplusProofs

  // ---- sorted keys ---------------------------------------------------------

  /** Only one increasing list holds just the keys of s. */
  lemma {:induction false} SortedUnique(ks: seq<Key>, s: set<Key>)
    requires Sorted(ks) && forall k :: k in ks <==> k in s
    ensures ks == SortKeys(s)
    decreases |s|
  {
    if s == {} {
      assert forall i :: 0 <= i < |ks| ==> ks[i] in ks;
    } else {
      var l := LeastKey(s);
      SortKeysSorts(s);
      var least := Least(s);
      assert SortKeys(s) == [least] + SortKeys(s - {least});
      assert ks != [];
      assert ks[0] in s;
      KeyLessOrder(ks[0], least, least);
      var i :| 0 <= i < |ks| && ks[i] == least;
      assert ks[0] == least by {
        if i > 0 { assert KeyLess(ks[0], ks[i]); }
      }
      forall k ensures k in ks[1..] <==> k in s - {least} {
        if k in ks[1..] {
          var j :| 1 <= j < |ks| && ks[j] == k;
          assert KeyLess(ks[0], ks[j]);
          KeyLessOrder(k, k, k);
          assert ks[j] in ks;
        }
        if k in s - {least} {
          assert k in ks;
          var j :| 0 <= j < |ks| && ks[j] == k;
          assert ks[1..][j - 1] == k;
        }
      }
      SortedUnique(ks[1..], s - {least});
    }
  }

  /** Puts k into its place in an increasing list. */
  method InsertKey(ks: seq<Key>, k: Key) returns (out: seq<Key>)
    requires Sorted(ks) && k !in ks
    ensures Sorted(out)
    ensures forall j :: j in out <==> j == k || j in ks
  {
    var i := 0;
    while i < |ks| && KeyLess(ks[i], k)
      invariant 0 <= i <= |ks|
      invariant forall j :: 0 <= j < i ==> KeyLess(ks[j], k)
    {
      i := i + 1;
    }
    forall j | i <= j < |ks| ensures KeyLess(k, ks[j]) {
      assert ks[i] in ks;
      KeyLessOrder(k, ks[i], ks[j]);
    }
    out := ks[..i] + [k] + ks[i..];
    assert ks == ks[..i] + ks[i..];
  }

  /** sort.Strings and sort.Ints on the keys of a map, met in any order. */
  method SortMapKeys(found: seq<Key>) returns (keys: seq<Key>)
    requires forall i, j :: 0 <= i < j < |found| ==> found[i] != found[j]
    ensures keys == SortKeys(set k | k in found)
  {
    keys := [];
    for i := 0 to |found|
      invariant Sorted(keys)
      invariant forall k :: k in keys <==> k in found[..i]
    {
      keys := InsertKey(keys, found[i]);
      assert found[..i + 1] == found[..i] + [found[i]];
    }
    assert found[..|found|] == found;
    SortedUnique(keys, set k | k in found);
  }

  /** The keys of a map in whatever order the map yields them. */
  method RangeTexts(m: map<GoBytes, Value>) returns (found: seq<Key>)
    ensures forall i, j :: 0 <= i < j < |found| ==> found[i] != found[j]
    ensures (set k | k in found) == TextKeys(m)
  {
    found := [];
    var left := m.Keys;
    while left != {}
      invariant left <= m.Keys
      invariant forall i, j :: 0 <= i < j < |found| ==> found[i] != found[j]
      invariant forall k :: k in found <==> k.TextKey? && k.s in m && k.s !in left
      decreases |left|
    {
      var s :| s in left;
      found := found + [TextKey(s)];
      left := left - {s};
    }
  }

  method RangeInts(m: map<int64, Value>) returns (found: seq<Key>)
    ensures forall i, j :: 0 <= i < j < |found| ==> found[i] != found[j]
    ensures (set k | k in found) == IntKeys(m)
  {
    found := [];
    var left := m.Keys;
    while left != {}
      invariant left <= m.Keys
      invariant forall i, j :: 0 <= i < j < |found| ==> found[i] != found[j]
      invariant forall k :: k in found <==> k.IntKey? && k.n in m && k.n !in left
      decreases |left|
    {
      var n :| n in left;
      found := found + [IntKey(n)];
      left := left - {n};
    }
  }

  // ---- encoder -------------------------------------------------------------

  /** What appending v to a buffer should give; None stands for an error. */
  ghost function Appended(buf: seq<byte>, v: Value): Option<seq<byte>> {
    if Encodable(v) then Some(buf + Enc(v)) else None
  }

  method Encode(v: Value) returns (r: Option<seq<byte>>)
    ensures r == if Encodable(v) then Some(Enc(v)) else None
  {
    r := EncodeTo([], v);
    assert Encodable(v) ==> [] + Enc(v) == Enc(v);
  }

  method EncodeTo(buf: seq<byte>, v: Value) returns (r: Option<seq<byte>>)
    ensures r == Appended(buf, v)
    decreases v
  {
    match v
    case Nil => r := Some(buf + [CHR_NONE]);
    case Bool(b) => r := Some(buf + [if b then CHR_TRUE else CHR_FALSE]);
    case Text(s) => r := Some(buf + EncText(s));
    case Binary(s) => r := Some(buf + EncBinary(s));
    case Int(n) => r := Some(buf + EncInt(n));
    case Uint(u) => r := if u > MAX_INT64 then None else Some(buf + EncInt(u));
    case Big(n) => r := Some(buf + EncBig(n));
    case NilBig => r := None;
    case Float(bits) => r := Some(buf + ([CHR_FLOAT64] + bits));
    case Float32(bits) => r := Some(buf + ([CHR_FLOAT64] + Widen(bits)));
    case List(_) => r := EncodeList(buf, v);
    case Strings(_) => r := EncodeList(buf, v);
    case Ints(_) => r := EncodeList(buf, v);
    case Dict(entries) =>
      r := EncodeDict(buf, v, seq(|entries|, i requires 0 <= i < |entries| => TextKey(entries[i].key)));
    case TextMap(m) =>
      var found := RangeTexts(m);
      var keys := SortMapKeys(found);
      r := EncodeDict(buf, v, keys);
    case IntMap(m) =>
      var found := RangeInts(m);
      var keys := SortMapKeys(found);
      r := EncodeDict(buf, v, keys);
    case Unsupported => r := None;
  }

  /** Appends item number i of a list. */
  method EncodeItem(buf: seq<byte>, v: Value, i: nat) returns (r: Option<seq<byte>>)
    requires IsList(v) && i < Count(v)
    ensures Encodable(v) ==> r == Some(buf + EncItem(v, i))
    ensures r.None? <==> v.List? && !Encodable(v.items[i])
    decreases v, 0, 0
  {
    match v
    case List(items) => r := EncodeTo(buf, items[i]);
    case Strings(strings) => r := Some(buf + EncText(strings[i]));
    case Ints(ints) => r := Some(buf + EncInt(ints[i]));
  }

  lemma EncItemsFrom(v: Value, i: nat)
    requires IsList(v) && Encodable(v) && i <= Count(v)
    ensures i == Count(v) ==> EncItems(v, i) == []
    ensures i < Count(v) ==> EncItems(v, i) == EncItem(v, i) + EncItems(v, i + 1)
  {
  }

  method EncodeList(buf: seq<byte>, v: Value) returns (r: Option<seq<byte>>)
    requires IsList(v)
    ensures r == Appended(buf, v)
    decreases v, 1, 0
  {
    hide Enc, EncItem, EncItems;
    var n := Count(v);
    var out := buf + ListHeader(n);
    if Encodable(v) {
      ListForm(v);
    }
    var i := 0;
    while i < n
      invariant 0 <= i <= n
      invariant v.List? ==> forall j :: 0 <= j < i ==> Encodable(v.items[j])
      invariant Encodable(v) ==> out + EncItems(v, i) + Trailer(n >= LIST_COUNT) == buf + Enc(v)
    {
      var next := EncodeItem(out, v, i);
      if next.None? {
        return None;
      }
      if Encodable(v) {
        EncItemsFrom(v, i);
        assert out + (EncItem(v, i) + EncItems(v, i + 1)) == (out + EncItem(v, i)) + EncItems(v, i + 1);
      }
      out := next.value;
      i := i + 1;
    }
    assert Encodable(v);
    EncItemsFrom(v, n);
    assert out + [] == out;
    r := Some(out + ListTrailer(n));
  }

  /** If every pair up to the last can be encoded, the dictionary can. */
  lemma EncodableDict(v: Value)
    requires IsDict(v)
    requires forall i :: 0 <= i < |Keys(v)| ==> Encodable(EntryValue(v, i))
    ensures Encodable(v)
  {
    match v
    case Dict(es) =>
      forall i | 0 <= i < |es| ensures Encodable(es[i].value) { assert EntryValue(v, i) == es[i].value; }
    case TextMap(m) =>
      SortKeysSorts(TextKeys(m));
      forall k | k in m ensures Encodable(m[k]) {
        assert TextKey(k) in Keys(v);
        var i :| 0 <= i < |Keys(v)| && Keys(v)[i] == TextKey(k);
        assert EntryValue(v, i) == m[k];
      }
    case IntMap(m) =>
      SortKeysSorts(IntKeys(m));
      forall k | k in m ensures Encodable(m[k]) {
        assert IntKey(k) in Keys(v);
        var i :| 0 <= i < |Keys(v)| && Keys(v)[i] == IntKey(k);
        assert EntryValue(v, i) == m[k];
      }
  }

  /** Appends pair number i of a dictionary. */
  method EncodeEntry(buf: seq<byte>, v: Value, keys: seq<Key>, i: nat) returns (r: Option<seq<byte>>)
    requires IsDict(v) && keys == Keys(v) && i < |keys|
    ensures r == Appended(buf + EncKey(keys[i]), EntryValue(v, i))
    decreases v, 0, 0
  {
    if v.TextMap? || v.IntMap? {
      KeysOfMap(v, i);
    }
    match v
    case Dict(entries) =>
      assert EntryValue(v, i) == entries[i].value;
      r := EncodeTo(buf + EncKey(keys[i]), entries[i].value);
    case TextMap(m) =>
      assert EntryValue(v, i) == m[keys[i].s];
      r := EncodeTo(buf + EncKey(keys[i]), m[keys[i].s]);
    case IntMap(m) =>
      assert EntryValue(v, i) == m[keys[i].n];
      r := EncodeTo(buf + EncKey(keys[i]), m[keys[i].n]);
  }

  lemma Reassociate(a: seq<byte>, b: seq<byte>, c: seq<byte>, d: seq<byte>)
    ensures a + (b + c + d) == (a + b + c) + d
  {
  }

  method EncodeDict(buf: seq<byte>, v: Value, keys: seq<Key>) returns (r: Option<seq<byte>>)
    requires IsDict(v) && keys == Keys(v)
    ensures r == Appended(buf, v)
    decreases v, 1, 0
  {
    hide Enc, EncEntries, EncKey, Keys, EntryValue, Encodable, NormEntries, Norm, ShallowEntries, Shallow, KeyText;
    var n := |keys|;
    var out := buf + DictHeader(n);
    if Encodable(v) {
      DictForm(v);
      assert buf + Enc(v) == out + EncEntries(v, 0) + Trailer(n >= DICT_COUNT);
    }
    var i := 0;
    while i < n
      invariant 0 <= i <= n
      invariant forall j :: 0 <= j < i ==> Encodable(EntryValue(v, j))
      invariant Encodable(v) ==> out + EncEntries(v, i) + Trailer(n >= DICT_COUNT) == buf + Enc(v)
    {
      var next := EncodeEntry(out, v, keys, i);
      if Encodable(v) {
        EntriesFrom(v, i, 0, map[]);
        Reassociate(out, EncKey(keys[i]), Enc(EntryValue(v, i)), EncEntries(v, i + 1));
      }
      if next.None? {
        return None;
      }
      out := next.value;
      i := i + 1;
    }
    EncodableDict(v);
    EntriesFrom(v, n, 0, map[]);
    assert out + [] == out;
    r := Some(out + DictTrailer(n));
  }

  // ---- decoder -------------------------------------------------------------

  class Decoder {
    const data: seq<byte>
    var pos: nat

    constructor (data: seq<byte>)
      ensures this.data == data && pos == 0
    {
      this.data := data;
      pos := 0;
    }

    /** The bytes not read yet. */
    ghost function Left(): seq<byte>
      requires pos <= |data|
      reads this
    {
      data[pos..]
    }

    /** A method returned what p says, and left off where p says. */
    ghost predicate Agrees<T>(p: Parse<T>, r: Result<T, DecodeError>)
      reads this
    {
      && pos <= |data|
      && match p
         case Done(v, rest) => r == Ok(v) && Left() == rest
         case Fail(e) => r == Err(e)
    }

    method Next(n: int) returns (r: Result<seq<byte>, DecodeError>)
      requires pos <= |data|
      modifies this
      ensures Agrees(if n < 0 || |old(Left())| < n then Fail(Truncated) else Done(old(Left())[..n], old(Left())[n..]), r)
    {
      if n < 0 || |data| - pos < n {
        return Err(Truncated);
      }
      assert data[pos..pos + n] == Left()[..n] && data[pos + n..] == Left()[n..];
      r := Ok(data[pos..pos + n]);
      pos := pos + n;
    }

    static lemma ValueCases(bs: seq<byte>, depth: nat)
      ensures depth > MAX_DEPTH ==> DecValue(bs, depth) == Fail(TooDeep)
      ensures depth <= MAX_DEPTH && bs == [] ==> DecValue(bs, depth) == Fail(Truncated)
      ensures depth <= MAX_DEPTH && bs != [] ==>
        var tag, rest := bs[0], bs[1..];
        DecValue(bs, depth) ==
          if tag >= LIST_START then WrapList(DecItems(rest, tag - LIST_START, false, depth))
          else if DICT_START <= tag < DICT_START + DICT_COUNT then
            WrapDict(DecEntries(rest, tag - DICT_START, false, depth, map[]))
          else if tag == CHR_LIST then WrapList(DecItems(rest, 0, true, depth))
          else if tag == CHR_DICT then WrapDict(DecEntries(rest, 0, true, depth, map[]))
          else DecScalar(tag, rest)
    {
      hide DecItems, DecEntries, DecScalar;
    }

    method Value(depth: nat) returns (r: Result<Value, DecodeError>)
      requires pos <= |data|
      modifies this
      ensures Agrees(DecValue(old(Left()), depth), r)
      decreases Max(MAX_DEPTH + 1 - depth, 0), 0, 0
    {
      hide DecItems, DecEntries, DecScalar, DecValue, WrapList, WrapDict;
      ValueCases(Left(), depth);
      if depth > MAX_DEPTH {
        return Err(TooDeep);
      }
      if pos >= |data| {
        return Err(Truncated);
      }
      var tag := data[pos];
      pos := pos + 1;
      assert old(Left())[0] == tag && old(Left())[1..] == Left();
      if tag >= LIST_START {
        r := ListValue(tag - LIST_START, false, depth);
      } else if DICT_START <= tag < DICT_START + DICT_COUNT {
        r := DictValue(tag - DICT_START, false, depth);
      } else if tag == CHR_LIST {
        r := ListValue(0, true, depth);
      } else if tag == CHR_DICT {
        r := DictValue(0, true, depth);
      } else {
        r := Scalar(tag);
      }
    }

    method ListValue(n: nat, terminated: bool, depth: nat) returns (r: Result<Value, DecodeError>)
      requires pos <= |data| && depth <= MAX_DEPTH && (terminated ==> n == 0)
      modifies this
      ensures Agrees(WrapList(DecItems(old(Left()), n, terminated, depth)), r)
      decreases MAX_DEPTH - depth, 1, 1
    {
      hide DecItems;
      var items := List(n, terminated, depth);
      r := if items.Ok? then Ok(Rencodeplus.Value.List(items.value)) else Err(items.error);
    }

    method DictValue(n: nat, terminated: bool, depth: nat) returns (r: Result<Value, DecodeError>)
      requires pos <= |data| && depth <= MAX_DEPTH && (terminated ==> n == 0)
      modifies this
      ensures Agrees(WrapDict(DecEntries(old(Left()), n, terminated, depth, map[])), r)
      decreases MAX_DEPTH - depth, 1, 1
    {
      hide DecEntries;
      var m := Dict(n, terminated, depth);
      r := if m.Ok? then Ok(TextMap(m.value)) else Err(m.error);
    }

    /** The payload of a value that is no container. */
    method Scalar(tag: byte) returns (r: Result<Value, DecodeError>)
      requires 1 <= pos <= |data| && data[pos - 1] == tag
      requires tag < LIST_START && !(DICT_START <= tag < DICT_START + DICT_COUNT)
      requires tag != CHR_LIST && tag != CHR_DICT
      modifies this
      ensures Agrees(DecScalar(tag, old(Left())), r)
    {
      if tag < INT_POS_COUNT {
        r := Ok(Int(tag));
      } else if INT_NEG_START <= tag < INT_NEG_START + INT_NEG_COUNT {
        r := Ok(Int(-(tag - INT_NEG_START) - 1));
      } else if STR_START <= tag < STR_START + STR_COUNT {
        var b := Next(tag - STR_START);
        r := if b.Ok? then Ok(Text(b.value)) else Err(b.error);
      } else if 48 <= tag <= 57 {
        pos := pos - 1;
        assert Left() == [tag] + old(Left());
        r := Sized();
      } else if tag == CHR_NONE {
        r := Ok(Nil);
      } else if tag == CHR_TRUE {
        r := Ok(Bool(true));
      } else if tag == CHR_FALSE {
        r := Ok(Bool(false));
      } else if tag == CHR_INT1 {
        r := Signed(1);
      } else if tag == CHR_INT2 {
        r := Signed(2);
      } else if tag == CHR_INT4 {
        r := Signed(4);
      } else if tag == CHR_INT8 {
        r := Signed(8);
      } else if tag == CHR_INT {
        r := BigInt();
      } else if tag == CHR_FLOAT32 {
        var b := Next(4);
        r := if b.Ok? then Ok(Float(Widen(b.value))) else Err(b.error);
      } else if tag == CHR_FLOAT64 {
        var b := Next(8);
        r := if b.Ok? then Ok(Float(b.value)) else Err(b.error);
      } else {
        r := Err(BadTag);
      }
    }

    method Signed(k: nat) returns (r: Result<Value, DecodeError>)
      requires pos <= |data| && k in {1, 2, 4, 8}
      modifies this
      ensures Agrees(DecSigned(old(Left()), k), r)
    {
      Pow256Values();
      var b := Next(k);
      if b.Err? {
        return Err(b.error);
      }
      r := Ok(Int(ToSigned(FromBigEndian(b.value), k)));
    }

    /** Advances to the first byte that is one of stops. */
    method Scan(stops: set<byte>)
      requires pos <= |data|
      modifies this
      ensures pos == old(pos) + Find(old(Left()), stops) <= |data|
    {
      while pos < |data| && data[pos] !in stops
        invariant old(pos) <= pos <= |data|
        invariant Find(old(Left()), stops) == pos - old(pos) + Find(Left(), stops)
      {
        assert Left()[1..] == data[pos + 1..];
        pos := pos + 1;
      }
    }

    method Sized() returns (r: Result<Value, DecodeError>)
      requires pos <= |data|
      modifies this
      ensures Agrees(DecSized(old(Left())), r)
    {
      var start := pos;
      Scan({SEP_TEXT, SEP_BINARY});
      if pos >= |data| {
        return Err(Truncated);
      }
      assert data[start..pos] == old(Left())[..pos - start];
      var n := Atoi(data[start..pos]);
      if n.None? {
        return Err(BadLength);
      }
      var binaryPayload := data[pos] == SEP_BINARY;
      pos := pos + 1;
      assert Left() == old(Left())[pos - start..];
      var b := Next(n.value);
      if b.Err? {
        return Err(b.error);
      }
      r := if binaryPayload then Ok(Binary(b.value)) else Ok(Text(b.value));
    }

    method BigInt() returns (r: Result<Value, DecodeError>)
      requires pos <= |data|
      modifies this
      ensures Agrees(DecBig(old(Left())), r)
    {
      var start := pos;
      Scan({CHR_TERM});
      if pos >= |data| {
        return Err(Truncated);
      }
      assert data[start..pos] == old(Left())[..pos - start];
      var n := ParseInt(data[start..pos]);
      pos := pos + 1;
      assert Left() == old(Left())[pos - start..];
      if n.None? {
        return Err(BadBignum);
      }
      r := Ok(if IsInt64(n.value) then Int(n.value) else Big(n.value));
    }

    /** The items read so far, followed by those p reads. */
    static ghost function Prepend(out: seq<Rencodeplus.Value>, p: Parse<seq<Rencodeplus.Value>>): Parse<seq<Rencodeplus.Value>> {
      match p case Done(vs, rest) => Done(out + vs, rest) case Fail(e) => Fail(e)
    }

    static lemma ItemsTurn(out: seq<Rencodeplus.Value>, bs: seq<byte>, n: nat, terminated: bool, depth: nat)
      requires depth <= MAX_DEPTH
      requires if terminated then bs != [] && bs[0] != CHR_TERM else n > 0
      ensures var v := DecValue(bs, depth + 1);
        match v
        case Fail(e) => DecItems(bs, n, terminated, depth) == Fail(e)
        case Done(x, rest) =>
          Prepend(out, DecItems(bs, n, terminated, depth))
          == Prepend(out + [x], DecItems(rest, if terminated then 0 else n - 1, terminated, depth))
    {
      hide DecValue;
      var v := DecValue(bs, depth + 1);
      if v.Done? {
        var p := DecItems(v.rest, if terminated then 0 else n - 1, terminated, depth);
        if p.Done? {
          assert out + ([v.value] + p.value) == (out + [v.value]) + p.value;
        }
      }
    }

    static lemma ItemsStop(out: seq<Rencodeplus.Value>, bs: seq<byte>, terminated: bool, depth: nat)
      requires depth <= MAX_DEPTH
      ensures !terminated ==> Prepend(out, DecItems(bs, 0, terminated, depth)) == Done(out, bs)
      ensures terminated && bs == [] ==> DecItems(bs, 0, terminated, depth) == Fail(Truncated)
      ensures terminated && bs != [] && bs[0] == CHR_TERM ==> Prepend(out, DecItems(bs, 0, terminated, depth)) == Done(out, bs[1..])
    {
      assert out + [] == out;
    }

    method List(n: nat, terminated: bool, depth: nat) returns (r: Result<seq<Rencodeplus.Value>, DecodeError>)
      requires pos <= |data| && depth <= MAX_DEPTH && (terminated ==> n == 0)
      modifies this
      ensures Agrees(DecItems(old(Left()), n, terminated, depth), r)
      decreases MAX_DEPTH - depth, 1, 0
    {
      hide DecItems, DecValue;
      var out: seq<Rencodeplus.Value> := [];
      var i := 0;
      assert forall vs: seq<Rencodeplus.Value> :: [] + vs == vs;
      while terminated || i < n
        invariant pos <= |data| && (!terminated ==> i <= n)
        invariant DecItems(old(Left()), n, terminated, depth)
               == Prepend(out, DecItems(Left(), if terminated then 0 else n - i, terminated, depth))
        decreases if terminated then |data| - pos else n - i
      {
        if terminated {
          ItemsStop(out, Left(), terminated, depth);
          if pos >= |data| {
            return Err(Truncated);
          }
          if data[pos] == CHR_TERM {
            assert Left()[1..] == data[pos + 1..];
            pos := pos + 1;
            return Ok(out);
          }
        }
        ItemsTurn(out, Left(), if terminated then 0 else n - i, terminated, depth);
        var v := Value(depth + 1);
        if v.Err? {
          return Err(v.error);
        }
        out := out + [v.value];
        i := i + 1;
      }
      ItemsStop(out, Left(), terminated, depth);
      r := Ok(out);
    }

    static lemma EntriesTurn(bs: seq<byte>, n: nat, terminated: bool, depth: nat, m: map<GoBytes, Rencodeplus.Value>)
      requires depth <= MAX_DEPTH
      requires if terminated then bs != [] && bs[0] != CHR_TERM else n > 0
      ensures var k := DecValue(bs, depth + 1);
        match k
        case Fail(e) => DecEntries(bs, n, terminated, depth, m) == Fail(e)
        case Done(key, rest) =>
          match DecValue(rest, depth + 1)
          case Fail(e) => DecEntries(bs, n, terminated, depth, m) == Fail(e)
          case Done(v, rest') =>
            match KeyOf(key)
            case None => DecEntries(bs, n, terminated, depth, m) == Fail(BadKey)
            case Some(s) =>
              DecEntries(bs, n, terminated, depth, m)
              == DecEntries(rest', if terminated then 0 else n - 1, terminated, depth, m[s := v])
    {
      hide DecValue, KeyOf;
    }

    static lemma EntriesStop(bs: seq<byte>, terminated: bool, depth: nat, m: map<GoBytes, Rencodeplus.Value>)
      requires depth <= MAX_DEPTH
      ensures !terminated ==> DecEntries(bs, 0, terminated, depth, m) == Done(m, bs)
      ensures terminated && bs == [] ==> DecEntries(bs, 0, terminated, depth, m) == Fail(Truncated)
      ensures terminated && bs != [] && bs[0] == CHR_TERM ==> DecEntries(bs, 0, terminated, depth, m) == Done(m, bs[1..])
    {
    }

    method Dict(n: nat, terminated: bool, depth: nat) returns (r: Result<map<GoBytes, Rencodeplus.Value>, DecodeError>)
      requires pos <= |data| && depth <= MAX_DEPTH && (terminated ==> n == 0)
      modifies this
      ensures Agrees(DecEntries(old(Left()), n, terminated, depth, map[]), r)
      decreases MAX_DEPTH - depth, 1, 0
    {
      hide DecEntries, DecValue, KeyOf;
      var out: map<GoBytes, Rencodeplus.Value> := map[];
      var i := 0;
      while terminated || i < n
        invariant pos <= |data| && (!terminated ==> i <= n)
        invariant DecEntries(old(Left()), n, terminated, depth, map[])
               == DecEntries(Left(), if terminated then 0 else n - i, terminated, depth, out)
        decreases if terminated then |data| - pos else n - i
      {
        if terminated {
          EntriesStop(Left(), terminated, depth, out);
          if pos >= |data| {
            return Err(Truncated);
          }
          if data[pos] == CHR_TERM {
            assert Left()[1..] == data[pos + 1..];
            pos := pos + 1;
            return Ok(out);
          }
        }
        EntriesTurn(Left(), if terminated then 0 else n - i, terminated, depth, out);
        var k := Value(depth + 1);
        if k.Err? {
          return Err(k.error);
        }
        var v := Value(depth + 1);
        if v.Err? {
          return Err(v.error);
        }
        var key := KeyOf(k.value);
        if key.None? {
          return Err(BadKey);
        }
        out := out[key.value := v.value];
        i := i + 1;
      }
      EntriesStop(Left(), terminated, depth, out);
      r := Ok(out);
    }
  }

  /** Decodes a whole byte string. */
  method DecodeAll(data: seq<byte>) returns (r: Result<Value, DecodeError>)
    ensures r == Decode(data)
  {
    var d := new Decoder(data);
    assert d.Left() == data;
    r := d.Value(0);
    if r.Ok? && d.pos != |data| {
      r := Err(Trailing);
    }
  }
}
