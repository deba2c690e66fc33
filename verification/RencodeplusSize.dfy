/** The encoder wastes no bytes: no other form of the grammar that means the same is
    shorter. */
module RencodeplusSize {
  import opened Bytes
  import opened Rencodeplus
  import opened RencodeplusWire

  function Pow10(k: nat): nat {
    if k == 0 then 1 else 10 * Pow10(k - 1)
  }

  lemma Pow10Values()
    ensures Pow10(4) == 10000 && Pow10(9) == 1000000000
  {
    assert Pow10(2) == 10 * Pow10(1);
    assert Pow10(4) == 10 * Pow10(3);
    assert Pow10(6) == 10 * Pow10(5);
    assert Pow10(8) == 10 * Pow10(7);
  }

  lemma {:induction false} Pow10Monotone(a: nat, b: nat)
    requires a <= b
    ensures 1 <= Pow10(a) <= Pow10(b)
  {
    if b == 0 {
    } else if a == b {
      Pow10Monotone(a - 1, b - 1);
    } else {
      Pow10Monotone(a, b - 1);
    }
  }

  /** A number has no more digits than it takes. */
  lemma {:induction false} DigitsBound(digits: seq<byte>)
    requires AllDigits(digits)
    ensures DigitsValue(digits) < Pow10(|digits|)
  {
    if digits == [] {
    } else {
      DigitsBound(digits[..|digits| - 1]);
    }
  }

  lemma {:induction false} DecimalShortest(digits: seq<byte>)
    requires AllDigits(digits) && digits != []
    ensures |Decimal(DigitsValue(digits))| <= |digits|
  {
    var front := digits[..|digits| - 1];
    var n := DigitsValue(digits);
    if front == [] {
      assert DigitsValue(front) == 0;
    } else {
      DecimalShortest(front);
      assert n / 10 == DigitsValue(front);
    }
  }

  /** How many bytes an integer takes. */
  lemma IntSize(n: int64)
    ensures |EncInt(n)| == if -32 <= n < 44 then 1 else if -128 <= n < 128 then 2 else if -32768 <= n < 32768 then 3
                           else if -0x8000_0000 <= n < 0x8000_0000 then 5 else 9
  {
    hide BigEndian, ToUnsigned;
  }

  lemma ShortestInt(n: int64, w: Wire)
    requires Legal(w) && (w.Small? || w.Word? || w.Number?) && Meaning(w) == Some(Int(n))
    ensures |EncInt(n)| <= |WireBytes(w)|
  {
    IntSize(n);
    hide BigEndian, EncInt, DigitsValue, Pow10;
    if w.Word? {
      Pow256Values();
    } else if w.Number? {
      DigitsBound(w.digits);
      Pow10Values();
      if |w.digits| <= 4 {
        Pow10Monotone(|w.digits|, 4);
      } else if |w.digits| <= 9 {
        Pow10Monotone(|w.digits|, 9);
      }
    }
  }

  lemma ShortestString(w: Wire)
    requires Legal(w) && (w.ShortText? || w.LongText? || w.LongBinary?)
    ensures |if w.LongBinary? then EncBinary(w.data) else EncText(w.text)| <= |WireBytes(w)|
  {
    hide DigitsValue, Decimal;
    if w.LongText? || w.LongBinary? {
      DecimalShortest(w.length);
    }
  }

  /** Values without floats and dictionaries, which a peer may send shorter, as a float32
      or with an integer for a decimal key. */
  ghost predicate Plain(v: Value)
    decreases v
  {
    v.Nil? || v.Bool? || v.Int? || v.Text? || v.Binary? || (v.List? && forall i :: 0 <= i < |v.items| ==> Plain(v.items[i]))
  }

  lemma {:induction false} PlainEncodable(v: Value)
    requires Plain(v)
    ensures Encodable(v)
    decreases v
  {
    if !v.List? {
    } else {
      forall i | 0 <= i < |v.items| ensures Encodable(v.items[i]) {
        PlainEncodable(v.items[i]);
      }
    }
  }

  lemma {:induction false} ShortestItems(v: Value, ws: seq<Wire>, i: nat)
    requires v.List? && Plain(v) && Encodable(v) && i <= |v.items|
    requires |ws| == |v.items| - i && forall k :: 0 <= k < |ws| ==> Legal(ws[k])
    requires ItemsMeaning(ws) == Some(v.items[i..])
    ensures |EncItems(v, i)| <= |ItemsBytes(ws)|
    decreases ws
  {
    hide Enc, WireBytes, Meaning, Legal, Encodable, Plain;
    if ws == [] {
    } else {
      assert v.items[i..][0] == v.items[i] && v.items[i..][1..] == v.items[i + 1..];
      PlainItem(v, i);
      ItemsSplit(ws, v.items[i..]);
      ShortestForm(v.items[i], ws[0]);
      ShortestItems(v, ws[1..], i + 1);
    }
  }

  lemma PlainItem(v: Value, i: nat)
    requires v.List? && Plain(v) && Encodable(v) && i < |v.items|
    ensures Plain(v.items[i]) && Encodable(v.items[i])
    ensures EncItems(v, i) == Enc(v.items[i]) + EncItems(v, i + 1)
  {
  }

  lemma ItemsSplit(ws: seq<Wire>, vs: seq<Value>)
    requires ws != [] && forall k :: 0 <= k < |ws| ==> Legal(ws[k])
    requires ItemsMeaning(ws) == Some(vs)
    ensures vs != [] && Meaning(ws[0]) == Some(vs[0]) && ItemsMeaning(ws[1..]) == Some(vs[1..])
    ensures ItemsBytes(ws) == WireBytes(ws[0]) + ItemsBytes(ws[1..])
  {
    hide WireBytes, Meaning, Legal;
  }

  lemma {:induction false} ItemsCount(ws: seq<Wire>)
    requires forall k :: 0 <= k < |ws| ==> Legal(ws[k])
    ensures ItemsMeaning(ws).Some? ==> |ItemsMeaning(ws).value| == |ws|
  {
    hide WireBytes, Meaning, Legal;
    if ws == [] {
    } else {
      ItemsCount(ws[1..]);
    }
  }

  lemma PlainKinds(v: Value)
    requires Plain(v)
    ensures v.Nil? || v.Bool? || v.Int? || v.Text? || v.Binary? || v.List?
  {
  }

  /** What a form that means a value of one of these kinds looks like. */
  lemma FormOf(v: Value, w: Wire)
    requires Legal(w) && Meaning(w) == Some(v)
    ensures v.Int? ==> w.Small? || w.Word? || w.Number?
    ensures v.Text? ==> (w.ShortText? || w.LongText?) && w.text == v.text
    ensures v.Binary? ==> w.LongBinary? && w.data == v.data
    ensures v.List? ==> w.Items? && (forall i :: 0 <= i < |w.items| ==> Legal(w.items[i])) && ItemsMeaning(w.items) == Some(v.items)
  {
    hide DigitsValue, ItemsMeaning, PairsMeaning, Widen;
  }

  lemma OneByte(v: Value, w: Wire)
    requires (v.Nil? || v.Bool?) && Legal(w)
    ensures |Enc(v)| <= |WireBytes(w)|
  {
    WireFirst(w);
    hide WireBytes;
  }

  lemma EncScalar(v: Value)
    requires Encodable(v)
    ensures v.Int? ==> Enc(v) == EncInt(v.n)
    ensures v.Text? ==> Enc(v) == EncText(v.text)
    ensures v.Binary? ==> Enc(v) == EncBinary(v.data)
  {
    hide EncInt, EncText, EncBinary;
  }

  /** No form of the grammar that means such a value is shorter than its encoding. */
  lemma {:induction false} ShortestForm(v: Value, w: Wire)
    requires Plain(v) && Legal(w) && Meaning(w) == Some(v)
    ensures Encodable(v) && |Enc(v)| <= |WireBytes(w)|
    decreases w
  {
    hide *;
    PlainEncodable(v);
    PlainKinds(v);
    FormOf(v, w);
    EncScalar(v);
    if v.Int? {
      ShortestInt(v.n, w);
    } else if v.Text? || v.Binary? {
      ShortestString(w);
    } else if v.List? {
      ItemsCount(w.items);
      assert v.items[0..] == v.items;
      ShortestItems(v, w.items, 0);
      ListSize(v, w);
    } else {
      OneByte(v, w);
    }
  }

  lemma ListSize(v: Value, w: Wire)
    requires v.List? && Encodable(v) && w.Items? && Legal(w) && |w.items| == |v.items|
    requires |EncItems(v, 0)| <= |ItemsBytes(w.items)|
    ensures |Enc(v)| <= |WireBytes(w)|
  {
    hide EncItems, ItemsBytes;
  }
}
