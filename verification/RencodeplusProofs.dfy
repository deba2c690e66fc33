/** Decoding undoes encoding: the round trip over every value tree, its depth
    limit, and what the normal form of a dictionary means. */
module RencodeplusProofs {
  import opened Bytes
  import opened Rencodeplus

  // ---- scalars -------------------------------------------------------------

  /** Find stops at the first byte that is a stop. */
  lemma {:induction false} FindAt(a: seq<byte>, b: seq<byte>, stops: set<byte>)
    requires forall i :: 0 <= i < |a| ==> a[i] !in stops
    requires b != [] && b[0] in stops
    ensures Find(a + b, stops) == |a|
  {
    assert forall i :: 0 <= i < |a| ==> (a + b)[i] == a[i];
    assert (a + b)[|a|] == b[0];
    FindFirst(a + b, stops);
  }

  /** What DecSized does once its length prefix is known. */
  lemma SizedCase(d: seq<byte>, sep: byte, s: GoBytes, rest: seq<byte>)
    requires sep == SEP_TEXT || sep == SEP_BINARY
    requires AllDigits(d) && Atoi(d) == Some(|s|)
    ensures DecSized(d + ([sep] + (s + rest)))
         == Done(if sep == SEP_TEXT then Text(s) else Binary(s), rest)
  {
    var tail := s + rest;
    var bs := d + ([sep] + tail);
    FindAt(d, [sep] + tail, {SEP_TEXT, SEP_BINARY});
    assert bs[..|d|] == d;
    assert bs[|d| + 1..] == tail;
    assert tail[..|s|] == s;
    assert tail[|s|..] == rest;
  }

  lemma AtoiDecimal(n: int64)
    requires n >= 0
    ensures Atoi(Decimal(n)) == Some(n)
  {
    DecimalRoundTrip(n);
  }

  /** Tags that start no container are left to DecScalar. */
  lemma ScalarCase(bs: seq<byte>, depth: nat)
    requires depth <= MAX_DEPTH && bs != []
    requires bs[0] < LIST_START && !(DICT_START <= bs[0] < DICT_START + DICT_COUNT)
    requires bs[0] != CHR_LIST && bs[0] != CHR_DICT
    ensures DecValue(bs, depth) == DecScalar(bs[0], bs[1..])
  {
  }

  lemma SizedScalar(d: seq<byte>, tail: seq<byte>, depth: nat)
    requires depth <= MAX_DEPTH && d != [] && AllDigits(d)
    ensures DecValue(d + tail, depth) == DecSized(d + tail)
  {
    var bs := d + tail;
    assert [bs[0]] + bs[1..] == bs;
    ScalarCase(bs, depth);
  }

  lemma RoundTripText(s: GoBytes, rest: seq<byte>, depth: nat)
    requires depth <= MAX_DEPTH
    ensures DecValue(EncText(s) + rest, depth) == Done(Text(s), rest)
  {
    if |s| < STR_COUNT {
      var bs := [STR_START + |s|] + (s + rest);
      assert EncText(s) + rest == bs;
      ScalarCase(bs, depth);
      assert bs[1..] == s + rest;
      assert (s + rest)[..|s|] == s && (s + rest)[|s|..] == rest;
    } else {
      var d := Decimal(|s|);
      assert EncText(s) + rest == d + ([SEP_TEXT] + (s + rest));
      AtoiDecimal(|s|);
      SizedScalar(d, [SEP_TEXT] + (s + rest), depth);
      SizedCase(d, SEP_TEXT, s, rest);
    }
  }

  lemma RoundTripBinary(s: GoBytes, rest: seq<byte>, depth: nat)
    requires depth <= MAX_DEPTH
    ensures DecValue(EncBinary(s) + rest, depth) == Done(Binary(s), rest)
  {
    var d := Decimal(|s|);
    assert EncBinary(s) + rest == d + ([SEP_BINARY] + (s + rest));
    AtoiDecimal(|s|);
    SizedScalar(d, [SEP_BINARY] + (s + rest), depth);
    SizedCase(d, SEP_BINARY, s, rest);
  }

  lemma RoundTripSigned(n: int, k: nat, rest: seq<byte>)
    requires k in {1, 2, 4, 8} && -Pow256(k) <= 2 * n < Pow256(k)
    ensures DecSigned(BigEndian(ToUnsigned(n, k), k) + rest, k).Done?
    ensures DecSigned(BigEndian(ToUnsigned(n, k), k) + rest, k).value.Int?
    ensures DecSigned(BigEndian(ToUnsigned(n, k), k) + rest, k).value.n == n
    ensures DecSigned(BigEndian(ToUnsigned(n, k), k) + rest, k).rest == rest
  {
    var s := BigEndian(ToUnsigned(n, k), k);
    BigEndianRoundTrip(ToUnsigned(n, k), k);
    assert (s + rest)[..k] == s && (s + rest)[k..] == rest;
  }

  lemma RoundTripInt(n: int64, rest: seq<byte>, depth: nat)
    requires depth <= MAX_DEPTH
    ensures DecValue(EncInt(n) + rest, depth) == Done(Int(n), rest)
  {
    Pow256Values();
    var bs := EncInt(n) + rest;
    if -INT_NEG_COUNT <= n < INT_POS_COUNT {
      assert bs[1..] == rest;
    } else {
      var k := if -0x80 <= n < 0x80 then 1 else if -0x8000 <= n < 0x8000 then 2
               else if -0x8000_0000 <= n < 0x8000_0000 then 4 else 8;
      assert bs[1..] == BigEndian(ToUnsigned(n, k), k) + rest;
      RoundTripSigned(n, k, rest);
    }
  }

  lemma RoundTripDecimal(n: int, rest: seq<byte>)
    ensures DecBig(FormatInt(n) + ([CHR_TERM] + rest)) == Done(if IsInt64(n) then Int(n) else Big(n), rest)
  {
    var s, tail := FormatInt(n), [CHR_TERM] + rest;
    FindAt(s, tail, {CHR_TERM});
    assert (s + tail)[..|s|] == s && (s + tail)[|s| + 1..] == rest;
    FormatIntRoundTrip(n);
  }

  lemma RoundTripBig(n: int, rest: seq<byte>, depth: nat)
    requires depth <= MAX_DEPTH
    ensures DecValue(EncBig(n) + rest, depth) == Done(if IsInt64(n) then Int(n) else Big(n), rest)
  {
    if IsInt64(n) {
      RoundTripInt(n, rest, depth);
    } else {
      var tail := FormatInt(n) + ([CHR_TERM] + rest);
      assert EncBig(n) + rest == [CHR_INT] + tail;
      assert ([CHR_INT] + tail)[1..] == tail;
      ScalarCase([CHR_INT] + tail, depth);
      RoundTripDecimal(n, rest);
    }
  }

  lemma RoundTripScalar(v: Value, rest: seq<byte>, depth: nat)
    requires Encodable(v) && !IsList(v) && !IsDict(v)
    requires depth <= MAX_DEPTH
    ensures DecValue(Enc(v) + rest, depth) == Done(Norm(v), rest)
  {
    var bs := Enc(v) + rest;
    match v
    case Text(s) => RoundTripText(s, rest, depth);
    case Binary(s) => RoundTripBinary(s, rest, depth);
    case Int(n) => RoundTripInt(n, rest, depth);
    case Uint(u) => RoundTripInt(u, rest, depth);
    case Big(n) => RoundTripBig(n, rest, depth);
    case Float(bits) => assert bs[1..] == bits + rest;
    case Float32(bits) => assert bs[1..] == Widen(bits) + rest;
    case Nil => assert bs[1..] == rest;
    case Bool(_) => assert bs[1..] == rest;
  }

  // ---- containers ----------------------------------------------------------

  /** No encoding is empty or starts with the byte that ends a container. */
  lemma FirstByte(v: Value)
    requires Encodable(v)
    ensures Enc(v) != [] && Enc(v)[0] != CHR_TERM
  {
  }

  ghost predicate ShallowItem(v: Value, i: nat, n: int)
    requires IsList(v) && i < Count(v)
  {
    n >= 0 && (v.List? ==> Shallow(v.items[i], n))
  }

  ghost function NormItem(v: Value, i: nat): Value
    requires IsList(v) && Encodable(v) && i < Count(v)
  {
    Norm(v).items[i]
  }

  /** Every item from number i on is shallow enough. */
  ghost predicate ShallowItems(v: Value, i: nat, n: int)
    requires IsList(v) && i <= Count(v)
  {
    forall j :: i <= j < Count(v) ==> ShallowItem(v, j, n)
  }

  ghost predicate ShallowEntries(v: Value, i: nat, n: int)
    requires IsDict(v) && i <= |Keys(v)|
  {
    forall j :: i <= j < |Keys(v)| ==> Shallow(EntryValue(v, j), n)
  }

  lemma ShallowList(v: Value, n: nat)
    requires IsList(v)
    ensures Shallow(v, n) <==> ShallowItems(v, 0, n - 1)
  {
    if v.List? {
      if Shallow(v, n) && v.items != [] {
        assert Shallow(v.items[0], n - 1);
      }
      if ShallowItems(v, 0, n - 1) {
        forall i | 0 <= i < |v.items| ensures Shallow(v.items[i], n - 1) { assert ShallowItem(v, i, n - 1); }
      }
    } else if Count(v) > 0 {
      assert ShallowItem(v, 0, n - 1) <==> n >= 1;
    }
  }

  lemma ShallowDict(v: Value, n: nat)
    requires IsDict(v)
    ensures Shallow(v, n) <==> ShallowEntries(v, 0, n - 1)
  {
    match v
    case Dict(es) =>
      assert forall i :: 0 <= i < |es| ==> EntryValue(v, i) == es[i].value;
    case TextMap(_) => ShallowTextMap(v, n);
    case IntMap(_) => ShallowIntMap(v, n);
  }

  lemma ShallowTextMap(v: Value, n: nat)
    requires v.TextMap?
    ensures Shallow(v, n) <==> ShallowEntries(v, 0, n - 1)
  {
    hide SortKeys;
    if ShallowEntries(v, 0, n - 1) {
      forall k | k in v.texts ensures Shallow(v.texts[k], n - 1) {
        var i := KeyIndex(v, TextKey(k));
        assert EntryValue(v, i) == v.texts[k];
      }
    }
    if Shallow(v, n) {
      forall i | 0 <= i < |Keys(v)| ensures Shallow(EntryValue(v, i), n - 1) { KeysOfMap(v, i); }
    }
  }

  lemma ShallowIntMap(v: Value, n: nat)
    requires v.IntMap?
    ensures Shallow(v, n) <==> ShallowEntries(v, 0, n - 1)
  {
    hide SortKeys;
    if ShallowEntries(v, 0, n - 1) {
      forall k | k in v.nums ensures Shallow(v.nums[k], n - 1) {
        var i := KeyIndex(v, IntKey(k));
        assert EntryValue(v, i) == v.nums[k];
      }
    }
    if Shallow(v, n) {
      forall i | 0 <= i < |Keys(v)| ensures Shallow(EntryValue(v, i), n - 1) { KeysOfMap(v, i); }
    }
  }

  lemma KeyIndex(v: Value, k: Key) returns (i: nat)
    requires v.TextMap? || v.IntMap?
    requires if v.TextMap? then k in TextKeys(v.texts) else k in IntKeys(v.nums)
    ensures i < |Keys(v)| && Keys(v)[i] == k
  {
    SortKeysSorts(if v.TextMap? then TextKeys(v.texts) else IntKeys(v.nums));
    i :| 0 <= i < |Keys(v)| && Keys(v)[i] == k;
  }

  ghost function Trailer(terminated: bool): seq<byte> {
    if terminated then [CHR_TERM] else []
  }

  lemma ItemsEnd(terminated: bool, rest: seq<byte>, depth: nat)
    requires depth <= MAX_DEPTH
    ensures DecItems(Trailer(terminated) + rest, 0, terminated, depth) == Done([], rest)
    ensures forall m :: DecEntries(Trailer(terminated) + rest, 0, terminated, depth, m) == Done(m, rest)
  {
    if terminated {
      assert (Trailer(terminated) + rest)[1..] == rest;
    } else {
      assert Trailer(terminated) + rest == rest;
    }
  }

  /** One turn of the item loop, on bytes that start with the encoding e. */
  lemma ItemsStep(e: seq<byte>, after: seq<byte>, n: nat, terminated: bool, depth: nat)
    requires depth <= MAX_DEPTH && e != [] && e[0] != CHR_TERM && (terminated <==> n == 0)
    ensures DecItems(e + after, n, terminated, depth)
         == match DecValue(e + after, depth + 1)
            case Fail(err) => Fail(err)
            case Done(v, rest) =>
              match DecItems(rest, if terminated then 0 else n - 1, terminated, depth)
              case Fail(err) => Fail(err)
              case Done(vs, rest') => Done([v] + vs, rest')
  {
    assert (e + after)[0] == e[0];
  }

  lemma {:induction false} RoundTripItems(v: Value, i: nat, terminated: bool, rest: seq<byte>, depth: nat)
    requires IsList(v) && Encodable(v) && i <= Count(v) && depth <= MAX_DEPTH
    ensures DecItems(EncItems(v, i) + (Trailer(terminated) + rest), if terminated then 0 else Count(v) - i, terminated, depth)
         == if ShallowItems(v, i, MAX_DEPTH - depth - 1) then Done(Norm(v).items[i..], rest) else Fail(TooDeep)
    decreases v, Count(v) - i + 1
  {
    hide DecItems, DecValue, EncItems, EncItem, Norm, NormItem, ShallowItems, ShallowItem, Shallow, Encodable;
    var end := Trailer(terminated) + rest;
    EncItemsStep(v, i, MAX_DEPTH - depth - 1);
    if i == Count(v) {
      assert EncItems(v, i) + end == end;
      ItemsEnd(terminated, rest, depth);
    } else {
      var e, after := EncItem(v, i), EncItems(v, i + 1) + end;
      assert EncItems(v, i) + end == e + after;
      RoundTripItem(v, i, after, depth);
      ItemsStep(e, after, if terminated then 0 else Count(v) - i, terminated, depth);
      RoundTripItems(v, i + 1, terminated, rest, depth);
      ItemsFrom(v, i, MAX_DEPTH - depth - 1);
    }
  }

  lemma EncItemsStep(v: Value, i: nat, n: int)
    requires IsList(v) && Encodable(v) && i <= Count(v)
    ensures i == Count(v) ==> EncItems(v, i) == [] && Norm(v).items[i..] == [] && ShallowItems(v, i, n)
    ensures i < Count(v) ==> EncItems(v, i) == EncItem(v, i) + EncItems(v, i + 1)
  {
  }

  lemma ItemsFrom(v: Value, i: nat, n: int)
    requires IsList(v) && Encodable(v) && i < Count(v)
    ensures ShallowItems(v, i, n) <==> ShallowItem(v, i, n) && ShallowItems(v, i + 1, n)
    ensures Norm(v).items[i..] == [NormItem(v, i)] + Norm(v).items[i + 1..]
  {
  }

  lemma {:induction false} RoundTripItem(v: Value, i: nat, rest: seq<byte>, depth: nat)
    requires IsList(v) && Encodable(v) && i < Count(v) && depth <= MAX_DEPTH
    ensures EncItem(v, i) != [] && EncItem(v, i)[0] != CHR_TERM
    ensures DecValue(EncItem(v, i) + rest, depth + 1)
         == if ShallowItem(v, i, MAX_DEPTH - depth - 1) then Done(NormItem(v, i), rest) else Fail(TooDeep)
    decreases v, 0
  {
    match v
    case List(l) =>
      FirstByte(l[i]);
      RoundTripValue(l[i], rest, depth + 1);
    case Strings(l) =>
      if depth < MAX_DEPTH { RoundTripText(l[i], rest, depth + 1); }
    case Ints(l) =>
      if depth < MAX_DEPTH { RoundTripInt(l[i], rest, depth + 1); }
  }

  lemma EntriesFrom(v: Value, i: nat, n: int, m: map<GoBytes, Value>)
    requires IsDict(v) && Encodable(v) && i <= |Keys(v)|
    ensures i == |Keys(v)| ==> EncEntries(v, i) == [] && NormEntries(v, i, m) == m && ShallowEntries(v, i, n)
    ensures i < |Keys(v)| ==>
      && Encodable(EntryValue(v, i))
      && EncEntries(v, i) == EncKey(Keys(v)[i]) + Enc(EntryValue(v, i)) + EncEntries(v, i + 1)
      && NormEntries(v, i, m) == NormEntries(v, i + 1, m[KeyText(Keys(v)[i]) := Norm(EntryValue(v, i))])
      && (ShallowEntries(v, i, n) <==> Shallow(EntryValue(v, i), n) && ShallowEntries(v, i + 1, n))
  {
    hide Enc, Norm, Shallow, Keys, EntryValue, KeyText, EncKey;
    if i < |Keys(v)| {
      EncodableEntry(v, i);
      assert ShallowEntries(v, i, n) <==> Shallow(EntryValue(v, i), n) && ShallowEntries(v, i + 1, n);
    }
  }

  /** One turn of the pair loop. */
  lemma EntriesStep(ke: seq<byte>, after: seq<byte>, k: Value, n: nat, terminated: bool, depth: nat, m: map<GoBytes, Value>)
    requires depth <= MAX_DEPTH && ke != [] && ke[0] != CHR_TERM && (terminated <==> n == 0)
    requires DecValue(ke + after, depth + 1) == (if depth < MAX_DEPTH then Done(k, after) else Fail(TooDeep))
    requires KeyOf(k).Some?
    ensures DecEntries(ke + after, n, terminated, depth, m)
         == if depth == MAX_DEPTH then Fail(TooDeep) else
            match DecValue(after, depth + 1)
            case Fail(err) => Fail(err)
            case Done(v, rest) =>
              DecEntries(rest, if terminated then 0 else n - 1, terminated, depth, m[KeyOf(k).value := v])
  {
    assert (ke + after)[0] == ke[0];
  }

  lemma {:induction false} RoundTripEntries(v: Value, i: nat, terminated: bool, rest: seq<byte>, depth: nat, m: map<GoBytes, Value>)
    requires IsDict(v) && Encodable(v) && i <= |Keys(v)| && depth <= MAX_DEPTH
    ensures DecEntries(EncEntries(v, i) + (Trailer(terminated) + rest), if terminated then 0 else |Keys(v)| - i, terminated, depth, m)
         == if ShallowEntries(v, i, MAX_DEPTH - depth - 1) then Done(NormEntries(v, i, m), rest) else Fail(TooDeep)
    decreases v, |Keys(v)| - i
  {
    hide *;
    var end := Trailer(terminated) + rest;
    EntriesFrom(v, i, MAX_DEPTH - depth - 1, m);
    if i == |Keys(v)| {
      assert EncEntries(v, i) + end == end;
      ItemsEnd(terminated, rest, depth);
    } else {
      EncodableEntry(v, i);
      var k, e, after := Keys(v)[i], EntryValue(v, i), EncEntries(v, i + 1) + end;
      assert EncEntries(v, i) + end == EncKey(k) + (Enc(e) + after);
      RoundTripKey(k, Enc(e) + after, depth);
      EntriesStep(EncKey(k), Enc(e) + after, KeyValue(k), if terminated then 0 else |Keys(v)| - i, terminated, depth, m);
      RoundTripValue(e, after, depth + 1);
      RoundTripEntries(v, i + 1, terminated, rest, depth, m[KeyText(k) := Norm(e)]);
    }
  }

  lemma RoundTripKey(k: Key, rest: seq<byte>, depth: nat)
    requires depth <= MAX_DEPTH
    ensures EncKey(k) != [] && EncKey(k)[0] != CHR_TERM
    ensures KeyOf(KeyValue(k)) == Some(KeyText(k))
    ensures DecValue(EncKey(k) + rest, depth + 1)
         == if depth < MAX_DEPTH then Done(KeyValue(k), rest) else Fail(TooDeep)
  {
    if depth < MAX_DEPTH {
      match k
      case TextKey(s) => RoundTripText(s, rest, depth + 1);
      case IntKey(n) => RoundTripInt(n, rest, depth + 1);
    }
  }

  /** Decoding what was encoded gives the normal form of the value and leaves
      exactly the bytes after it, if and only if nothing is nested too deeply. */
  lemma {:induction false} RoundTripValue(v: Value, rest: seq<byte>, depth: nat)
    requires Encodable(v)
    ensures DecValue(Enc(v) + rest, depth)
         == if Shallow(v, MAX_DEPTH - depth) then Done(Norm(v), rest) else Fail(TooDeep)
    decreases v
  {
    if depth <= MAX_DEPTH {
      if IsList(v) {
        hide *;
        RoundTripList(v, rest, depth);
      } else if IsDict(v) {
        hide *;
        RoundTripDict(v, rest, depth);
      } else {
        RoundTripScalar(v, rest, depth);
        hide *;
        ShallowScalar(v, MAX_DEPTH - depth);
      }
    } else {
      hide Enc, Norm;
    }
  }

  lemma ShallowScalar(v: Value, n: nat)
    requires !IsList(v) && !IsDict(v)
    ensures Shallow(v, n)
  {
  }

  lemma {:induction false} RoundTripList(v: Value, rest: seq<byte>, depth: nat)
    requires Encodable(v) && IsList(v) && depth <= MAX_DEPTH
    ensures DecValue(Enc(v) + rest, depth)
         == if Shallow(v, MAX_DEPTH - depth) then Done(Norm(v), rest) else Fail(TooDeep)
    decreases v, Count(v) + 2
  {
    hide DecItems, DecValue, Enc, Norm, EncItems, Shallow, ShallowItems, Encodable;
    var n := Count(v);
    var terminated := n >= LIST_COUNT;
    var tail := EncItems(v, 0) + (Trailer(terminated) + rest);
    ListForm(v);
    assert Enc(v) + rest == ListHeader(n) + tail;
    ListCase(n, tail, depth);
    RoundTripItems(v, 0, terminated, rest, depth);
    ShallowList(v, MAX_DEPTH - depth);
    assert Norm(v).items[0..] == Norm(v).items;
  }

  lemma ListForm(v: Value)
    requires Encodable(v) && IsList(v)
    ensures Enc(v) == ListHeader(Count(v)) + EncItems(v, 0) + Trailer(Count(v) >= LIST_COUNT)
    ensures Norm(v).List?
  {
  }

  lemma {:induction false} RoundTripDict(v: Value, rest: seq<byte>, depth: nat)
    requires Encodable(v) && IsDict(v) && depth <= MAX_DEPTH
    ensures DecValue(Enc(v) + rest, depth)
         == if Shallow(v, MAX_DEPTH - depth) then Done(Norm(v), rest) else Fail(TooDeep)
    decreases v, |Keys(v)| + 1
  {
    hide DecValue, DecEntries, Enc, Norm, Shallow, ShallowEntries, Keys, EncEntries, NormEntries, Encodable;
    var n := |Keys(v)|;
    var terminated := n >= DICT_COUNT;
    var tail := EncEntries(v, 0) + (Trailer(terminated) + rest);
    DictForm(v);
    assert Enc(v) + rest == DictHeader(n) + tail;
    DictCase(n, tail, depth);
    RoundTripEntries(v, 0, terminated, rest, depth, map[]);
    ShallowDict(v, MAX_DEPTH - depth);
  }

  lemma DictForm(v: Value)
    requires Encodable(v) && IsDict(v)
    ensures Enc(v) == DictHeader(|Keys(v)|) + EncEntries(v, 0) + Trailer(|Keys(v)| >= DICT_COUNT)
    ensures Norm(v) == TextMap(NormEntries(v, 0, map[]))
  {
  }

  lemma ListCase(n: nat, tail: seq<byte>, depth: nat)
    requires depth <= MAX_DEPTH
    ensures DecValue(ListHeader(n) + tail, depth)
         == WrapList(DecItems(tail, if n < LIST_COUNT then n else 0, n >= LIST_COUNT, depth))
  {
    hide DecItems;
    assert (ListHeader(n) + tail)[1..] == tail;
  }

  lemma DictCase(n: nat, tail: seq<byte>, depth: nat)
    requires depth <= MAX_DEPTH
    ensures DecValue(DictHeader(n) + tail, depth)
         == WrapDict(DecEntries(tail, if n < DICT_COUNT then n else 0, n >= DICT_COUNT, depth, map[]))
  {
    hide DecEntries, DecItems, DecScalar;
    assert (DictHeader(n) + tail)[1..] == tail;
  }

  /** The round trip of a whole packet: it comes back in normal form if nothing in
      it lies inside more than 64 containers, and not at all otherwise. */
  lemma {:induction false} DecodeEncode(v: Value)
    requires Encodable(v)
    ensures Decode(Enc(v)) == if Shallow(v, MAX_DEPTH) then Ok(Norm(v)) else Err(TooDeep)
  {
    hide Enc, Norm, Shallow, DecValue, Encodable;
    RoundTripValue(v, [], 0);
    assert Enc(v) + [] == Enc(v);
  }

  /** n lists, one inside the other, around nothing. */
  function Nest(n: nat): Value {
    if n == 0 then Nil else List([Nest(n - 1)])
  }

  lemma {:induction false} NestShallow(n: nat, m: int)
    ensures Encodable(Nest(n))
    ensures Shallow(Nest(n), m) <==> m >= n
  {
    if n == 0 {
    } else {
      NestShallow(n - 1, m - 1);
      assert Nest(n).items[0] == Nest(n - 1);
    }
  }

  /** Values the encoder takes and the decoder refuses: anything in 65 lists or more. */
  lemma NestTooDeep(n: nat)
    ensures Encodable(Nest(n))
    ensures Decode(Enc(Nest(n))) == if n <= MAX_DEPTH then Ok(Norm(Nest(n))) else Err(TooDeep)
  {
    hide Enc, Decode, Norm, Shallow, Encodable, Nest;
    NestShallow(n, MAX_DEPTH);
    DecodeEncode(Nest(n));
  }

  /** No encoding is the beginning of another one's, unless they mean the same. */
  lemma {:induction false} PrefixFree(v: Value, w: Value, rest: seq<byte>)
    requires Encodable(v) && Encodable(w) && Shallow(v, MAX_DEPTH) && Shallow(w, MAX_DEPTH)
    requires Enc(v) + rest == Enc(w)
    ensures rest == [] && Norm(v) == Norm(w)
  {
    hide Enc, Norm, Shallow, DecValue, Encodable;
    RoundTripValue(v, rest, 0);
    RoundTripValue(w, [], 0);
    assert Enc(w) + [] == Enc(w);
  }
}
