/** The values that come out of the decoder: what a received dictionary holds,
    and that every accepted byte string stands for a value that survives being
    sent again. */
module RencodeplusNormal {
  import opened Bytes
  import opened Rencodeplus
  import opened RencodeplusProofs

  // ---- dictionaries --------------------------------------------------------

  /** Pair number j is the last one, from number i on, whose key becomes t. */
  ghost predicate LastPair(v: Value, i: nat, t: GoBytes, j: nat)
    requires IsDict(v)
  {
    && i <= j < |Keys(v)|
    && KeyText(Keys(v)[j]) == t
    && forall l :: j < l < |Keys(v)| ==> KeyText(Keys(v)[l]) != t
  }

  ghost predicate NoPair(v: Value, i: nat, t: GoBytes)
    requires IsDict(v)
  {
    forall l :: i <= l < |Keys(v)| ==> KeyText(Keys(v)[l]) != t
  }

  lemma NormEntriesFrom(v: Value, i: nat, m: map<GoBytes, Value>)
    requires IsDict(v) && Encodable(v) && i <= |Keys(v)|
    ensures i == |Keys(v)| ==> NormEntries(v, i, m) == m
    ensures i < |Keys(v)| ==>
      && Encodable(EntryValue(v, i))
      && NormEntries(v, i, m) == NormEntries(v, i + 1, m[KeyText(Keys(v)[i]) := Norm(EntryValue(v, i))])
  {
    EntriesFrom(v, i, 0, m);
  }

  lemma {:induction false} EntriesLastWins(v: Value, i: nat, m: map<GoBytes, Value>, t: GoBytes, j: nat)
    requires IsDict(v) && Encodable(v) && i <= |Keys(v)|
    requires LastPair(v, i, t, j) || NoPair(v, i, t)
    ensures LastPair(v, i, t, j) ==>
      && Encodable(EntryValue(v, j))
      && t in NormEntries(v, i, m)
      && NormEntries(v, i, m)[t] == Norm(EntryValue(v, j))
    ensures NoPair(v, i, t) ==>
      && (t in NormEntries(v, i, m) <==> t in m)
      && (t in m ==> NormEntries(v, i, m)[t] == m[t])
    decreases |Keys(v)| - i
  {
    hide Norm, NormEntries, Encodable, EntryValue, Keys, Enc, EncEntries, KeyText;
    NormEntriesFrom(v, i, m);
    if i == |Keys(v)| {
    } else {
      var m' := m[KeyText(Keys(v)[i]) := Norm(EntryValue(v, i))];
      if LastPair(v, i, t, j) && j > i {
        assert LastPair(v, i + 1, t, j);
      } else {
        assert NoPair(v, i + 1, t);
      }
      EntriesLastWins(v, i + 1, m', t, j);
    }
  }

  /** Of several pairs with one key, the receiver keeps the last; it sees no key
      that was not sent. */
  lemma LastWins(v: Value, t: GoBytes, j: nat)
    requires IsDict(v) && Encodable(v)
    ensures LastPair(v, 0, t, j) ==>
      && Encodable(EntryValue(v, j))
      && t in Norm(v).texts
      && Norm(v).texts[t] == Norm(EntryValue(v, j))
    ensures NoPair(v, 0, t) ==> t !in Norm(v).texts
  {
    DictForm(v);
    if LastPair(v, 0, t, j) || NoPair(v, 0, t) {
      EntriesLastWins(v, 0, map[], t, j);
    }
  }

  lemma KeysDistinct(v: Value, i: nat, j: nat)
    requires v.TextMap? || v.IntMap?
    requires i < j < |Keys(v)|
    ensures KeyText(Keys(v)[i]) != KeyText(Keys(v)[j])
  {
    SortKeysSorts(if v.TextMap? then TextKeys(v.texts) else IntKeys(v.nums));
    KeysOfMap(v, i);
    KeysOfMap(v, j);
    KeyLessOrder(Keys(v)[i], Keys(v)[i], Keys(v)[i]);
    if v.IntMap? && KeyText(Keys(v)[i]) == KeyText(Keys(v)[j]) {
      FormatIntInjective(Keys(v)[i].n, Keys(v)[j].n);
    }
  }

  /** A string-keyed map arrives with the same keys and normalised values. */
  lemma NormTextMap(v: Value, t: GoBytes)
    requires v.TextMap? && Encodable(v)
    ensures t in Norm(v).texts <==> t in v.texts
    ensures t in v.texts ==> Encodable(v.texts[t]) && Norm(v).texts[t] == Norm(v.texts[t])
  {
    if t in v.texts {
      var i := KeyIndex(v, TextKey(t));
      forall l | i < l < |Keys(v)| ensures KeyText(Keys(v)[l]) != t { KeysDistinct(v, i, l); }
      LastWins(v, t, i);
    } else {
      forall l | 0 <= l < |Keys(v)| ensures KeyText(Keys(v)[l]) != t { KeysOfMap(v, l); }
      LastWins(v, t, 0);
    }
  }

  /** An integer-keyed map arrives under the decimal texts of its keys. */
  lemma NormIntMap(v: Value, n: int64)
    requires v.IntMap? && Encodable(v)
    ensures FormatInt(n) in Norm(v).texts <==> n in v.nums
    ensures n in v.nums ==> Encodable(v.nums[n]) && Norm(v).texts[FormatInt(n)] == Norm(v.nums[n])
    ensures forall t :: t in Norm(v).texts ==> exists k: int64 :: k in v.nums && t == FormatInt(k)
  {
    if n in v.nums {
      var i := KeyIndex(v, IntKey(n));
      forall l | i < l < |Keys(v)| ensures KeyText(Keys(v)[l]) != FormatInt(n) { KeysDistinct(v, i, l); }
      LastWins(v, FormatInt(n), i);
    } else {
      forall l | 0 <= l < |Keys(v)| ensures KeyText(Keys(v)[l]) != FormatInt(n) {
        KeysOfMap(v, l);
        if KeyText(Keys(v)[l]) == FormatInt(n) { FormatIntInjective(Keys(v)[l].n, n); }
      }
      LastWins(v, FormatInt(n), 0);
    }
    forall t | t in Norm(v).texts ensures exists k: int64 :: k in v.nums && t == FormatInt(k) {
      if forall l :: 0 <= l < |Keys(v)| ==> KeyText(Keys(v)[l]) != t {
        LastWins(v, t, 0);
      } else {
        var l :| 0 <= l < |Keys(v)| && KeyText(Keys(v)[l]) == t;
        KeysOfMap(v, l);
      }
    }
  }

  // ---- decoded values ------------------------------------------------------

  /** The values the decoder builds. */
  ghost predicate Normal(v: Value) {
    match v
    case Nil => true
    case Bool(_) => true
    case Text(_) => true
    case Binary(_) => true
    case Int(_) => true
    case Big(n) => !IsInt64(n)
    case Float(_) => true
    case List(items) => forall i :: 0 <= i < |items| ==> Normal(items[i])
    case TextMap(m) => forall k :: k in m ==> Normal(m[k])
    case _ => false
  }

  /** Values of that kind are left as they are by sending and receiving. */
  lemma {:induction false} NormalUnchanged(v: Value)
    requires Normal(v)
    ensures Encodable(v) && Norm(v) == v
  {
    match v
    case List(items) =>
      forall i | 0 <= i < |items| ensures Encodable(items[i]) && Norm(items[i]) == items[i] {
        NormalUnchanged(items[i]);
      }
      assert Norm(v).items == items;
    case TextMap(m) =>
      forall k | k in m ensures Encodable(m[k]) && Norm(m[k]) == m[k] {
        NormalUnchanged(m[k]);
      }
      DictForm(v);
      forall t: GoBytes ensures t in Norm(v).texts <==> t in m
                        ensures t in m ==> Norm(v).texts[t] == m[t] {
        NormTextMap(v, t);
      }
      assert Norm(v).texts == m;
    case _ =>
  }

  /** Built by the decoder, and not nested more than n deep. */
  ghost predicate Good(v: Value, n: int) { Normal(v) && Shallow(v, n) }

  ghost predicate GoodItems(items: seq<Value>, n: int) {
    forall i :: 0 <= i < |items| ==> Good(items[i], n)
  }

  ghost predicate GoodMap(m: map<GoBytes, Value>, n: int) {
    forall k :: k in m ==> Good(m[k], n)
  }

  lemma GoodContainers(items: seq<Value>, m: map<GoBytes, Value>, n: nat)
    ensures GoodItems(items, n - 1) ==> Good(List(items), n)
    ensures GoodMap(m, n - 1) ==> Good(TextMap(m), n)
  {
  }

  lemma GoodItemsCons(v: Value, items: seq<Value>, n: int)
    requires Good(v, n) && GoodItems(items, n)
    ensures GoodItems([v] + items, n)
  {
  }

  lemma ScalarGood(tag: byte, bs: seq<byte>, n: nat)
    ensures DecScalar(tag, bs).Done? ==> Good(DecScalar(tag, bs).value, n) && Nodes(DecScalar(tag, bs).value) == 1
  {
    hide Widen, FromBigEndian, ParseInt, Atoi, Find;
  }

  lemma {:induction false} DecodedNormal(bs: seq<byte>, depth: nat)
    ensures DecValue(bs, depth).Done? ==> Good(DecValue(bs, depth).value, MAX_DEPTH - depth)
    decreases Max(MAX_DEPTH + 1 - depth, 0), 0, 0
  {
    hide Good, GoodItems, GoodMap, DecItems, DecEntries, DecScalar;
    if depth <= MAX_DEPTH && bs != [] {
      var tag, rest := bs[0], bs[1..];
      var fixed := tag != CHR_LIST && tag != CHR_DICT;
      if tag >= LIST_START || tag == CHR_LIST {
        var n := if fixed then tag - LIST_START else 0;
        DecodedItemsNormal(rest, n, !fixed, depth);
        if DecItems(rest, n, !fixed, depth).Done? {
          GoodContainers(DecItems(rest, n, !fixed, depth).value, map[], MAX_DEPTH - depth);
        }
      } else if DICT_START <= tag < DICT_START + DICT_COUNT || tag == CHR_DICT {
        var n := if fixed then tag - DICT_START else 0;
        GoodEmpty(MAX_DEPTH - depth - 1);
        DecodedEntriesNormal(rest, n, !fixed, depth, map[]);
        if DecEntries(rest, n, !fixed, depth, map[]).Done? {
          GoodContainers([], DecEntries(rest, n, !fixed, depth, map[]).value, MAX_DEPTH - depth);
        }
      } else {
        ScalarGood(tag, rest, MAX_DEPTH - depth);
      }
    }
  }

  lemma GoodEmpty(n: int)
    ensures GoodMap(map[], n)
  {
  }

  lemma {:induction false} DecodedItemsNormal(bs: seq<byte>, n: nat, terminated: bool, depth: nat)
    requires depth <= MAX_DEPTH
    ensures var p := DecItems(bs, n, terminated, depth);
      p.Done? ==> GoodItems(p.value, MAX_DEPTH - depth - 1)
    decreases MAX_DEPTH - depth, 1, n + |bs|
  {
    hide Good, DecValue;
    if DecItems(bs, n, terminated, depth).Fail? || (terminated && bs[0] == CHR_TERM) || (!terminated && n == 0) {
    } else {
      var v := DecValue(bs, depth + 1);
      DecodedNormal(bs, depth + 1);
      DecodedItemsNormal(v.rest, if terminated then 0 else n - 1, terminated, depth);
      GoodItemsCons(v.value, DecItems(v.rest, if terminated then 0 else n - 1, terminated, depth).value, MAX_DEPTH - depth - 1);
    }
  }

  lemma {:induction false} DecodedEntriesNormal(bs: seq<byte>, n: nat, terminated: bool, depth: nat, m: map<GoBytes, Value>)
    requires depth <= MAX_DEPTH
    requires GoodMap(m, MAX_DEPTH - depth - 1)
    ensures var p := DecEntries(bs, n, terminated, depth, m);
      p.Done? ==> GoodMap(p.value, MAX_DEPTH - depth - 1)
    decreases MAX_DEPTH - depth, 1, n + |bs|
  {
    hide Good, DecValue, KeyOf;
    if DecEntries(bs, n, terminated, depth, m).Fail? || (terminated && bs[0] == CHR_TERM) || (!terminated && n == 0) {
    } else {
      var k := DecValue(bs, depth + 1);
      var v := DecValue(k.rest, depth + 1);
      DecodedNormal(k.rest, depth + 1);
      DecodedEntriesNormal(v.rest, if terminated then 0 else n - 1, terminated, depth, m[KeyOf(k.value).value := v.value]);
    }
  }

  /** Whatever bytes the decoder accepts, the value it makes of them can be
      encoded again and then decodes to itself. */
  lemma {:induction false} DecodedRoundTrip(bs: seq<byte>)
    requires Decode(bs).Ok?
    ensures Encodable(Decode(bs).value)
    ensures Decode(Enc(Decode(bs).value)) == Decode(bs)
  {
    hide Norm, Enc, Shallow, Encodable, Normal, DecValue;
    var v := Decode(bs).value;
    DecodedNormal(bs, 0);
    NormalUnchanged(v);
    DecodeEncode(v);
  }

  // ---- size ----------------------------------------------------------------

  /** The number of values in a decoded tree, dictionary keys included. */
  ghost function Nodes(v: Value): nat {
    match v
    case List(items) => 1 + ItemNodes(items)
    case TextMap(m) => 1 + KeyNodes(v, m.Keys)
    case _ => 1
  }

  ghost function ItemNodes(items: seq<Value>): nat {
    if items == [] then 0 else Nodes(items[0]) + ItemNodes(items[1..])
  }

  /** The nodes under the keys ks of a dictionary. */
  ghost function KeyNodes(v: Value, ks: set<GoBytes>): nat
    requires v.TextMap? && ks <= v.texts.Keys
    decreases v, |ks|
  {
    if ks == {} then 0 else
      var k :| k in ks;
      1 + Nodes(v.texts[k]) + KeyNodes(v, ks - {k})
  }

  ghost function MapNodes(m: map<GoBytes, Value>): nat {
    KeyNodes(TextMap(m), m.Keys)
  }

  lemma {:induction false} KeyNodesWithout(v: Value, ks: set<GoBytes>, k: GoBytes)
    requires v.TextMap? && ks <= v.texts.Keys && k in ks
    ensures KeyNodes(v, ks) == 1 + Nodes(v.texts[k]) + KeyNodes(v, ks - {k})
    decreases |ks|
  {
    hide Nodes;
    var l :| l in ks && KeyNodes(v, ks) == 1 + Nodes(v.texts[l]) + KeyNodes(v, ks - {l});
    if l == k {
    } else {
      KeyNodesWithout(v, ks - {l}, k);
      KeyNodesWithout(v, ks - {k}, l);
      assert ks - {l} - {k} == ks - {k} - {l};
    }
  }

  lemma {:induction false} KeyNodesAgree(v: Value, w: Value, ks: set<GoBytes>)
    requires v.TextMap? && w.TextMap? && ks <= v.texts.Keys * w.texts.Keys
    requires forall k :: k in ks ==> v.texts[k] == w.texts[k]
    ensures KeyNodes(v, ks) == KeyNodes(w, ks)
    decreases |ks|
  {
    if ks == {} {
    } else {
      var k :| k in ks;
      KeyNodesWithout(v, ks, k);
      KeyNodesWithout(w, ks, k);
      KeyNodesAgree(v, w, ks - {k});
    }
  }

  lemma MapNodesInsert(m: map<GoBytes, Value>, k: GoBytes, v: Value)
    ensures MapNodes(m[k := v]) <= MapNodes(m) + 1 + Nodes(v)
  {
    var m' := m[k := v];
    KeyNodesWithout(TextMap(m'), m'.Keys, k);
    KeyNodesAgree(TextMap(m), TextMap(m'), m.Keys - {k});
    assert m'.Keys - {k} == m.Keys - {k};
    if k in m {
      KeyNodesWithout(TextMap(m), m.Keys, k);
    } else {
      assert m.Keys - {k} == m.Keys;
    }
  }

  /** Every node of a decoded tree was paid for by a byte of input of its own. */
  lemma {:induction false} NodesBounded(bs: seq<byte>, depth: nat)
    ensures DecValue(bs, depth).Done? ==>
      Nodes(DecValue(bs, depth).value) + |DecValue(bs, depth).rest| <= |bs|
    decreases Max(MAX_DEPTH + 1 - depth, 0), 0, 0
  {
    hide DecItems, DecEntries, DecScalar, ItemNodes, KeyNodes;
    if depth <= MAX_DEPTH && bs != [] {
      var tag, rest := bs[0], bs[1..];
      var fixed := tag != CHR_LIST && tag != CHR_DICT;
      if tag >= LIST_START || tag == CHR_LIST {
        ItemNodesBounded(rest, if fixed then tag - LIST_START else 0, !fixed, depth);
      } else if DICT_START <= tag < DICT_START + DICT_COUNT || tag == CHR_DICT {
        MapNodesBounded(rest, if fixed then tag - DICT_START else 0, !fixed, depth, map[]);
        MapNodesEmpty();
      } else {
        ScalarGood(tag, rest, 0);
        ScalarAdvances(tag, rest);
      }
    }
  }

  lemma MapNodesEmpty()
    ensures MapNodes(map[]) == 0
  {
  }

  lemma {:induction false} ItemNodesBounded(bs: seq<byte>, n: nat, terminated: bool, depth: nat)
    requires depth <= MAX_DEPTH
    ensures var p := DecItems(bs, n, terminated, depth);
      p.Done? ==> ItemNodes(p.value) + |p.rest| <= |bs|
    decreases MAX_DEPTH - depth, 1, n + |bs|
  {
    hide DecValue, Nodes;
    var p := DecItems(bs, n, terminated, depth);
    if p.Fail? || (terminated && bs[0] == CHR_TERM) || (!terminated && n == 0) {
    } else {
      NodesBounded(bs, depth + 1);
      var v := DecValue(bs, depth + 1);
      ItemNodesBounded(v.rest, if terminated then 0 else n - 1, terminated, depth);
      assert p.value[0] == v.value;
      assert p.value[1..] == DecItems(v.rest, if terminated then 0 else n - 1, terminated, depth).value;
    }
  }

  lemma {:induction false} MapNodesBounded(bs: seq<byte>, n: nat, terminated: bool, depth: nat, m: map<GoBytes, Value>)
    requires depth <= MAX_DEPTH
    ensures var p := DecEntries(bs, n, terminated, depth, m);
      p.Done? ==> MapNodes(p.value) + |p.rest| <= MapNodes(m) + |bs|
    decreases MAX_DEPTH - depth, 1, n + |bs|
  {
    hide DecValue, Nodes, MapNodes, KeyOf;
    if DecEntries(bs, n, terminated, depth, m).Fail? || (terminated && bs[0] == CHR_TERM) || (!terminated && n == 0) {
    } else {
      var k := DecValue(bs, depth + 1);
      var v := DecValue(k.rest, depth + 1);
      NodesBounded(k.rest, depth + 1);
      MapNodesInsert(m, KeyOf(k.value).value, v.value);
      MapNodesBounded(v.rest, if terminated then 0 else n - 1, terminated, depth, m[KeyOf(k.value).value := v.value]);
    }
  }
}
