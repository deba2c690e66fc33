/** The ordered dictionary capabilities are built in: setting a key, and what the
    receiver makes of it. */
module OrderedDict {
  import opened Bytes
  import opened Rencodeplus
  import opened RencodeplusNormal

  /** Where a key first occurs; the number of entries if it does not. */
  function First(es: seq<Entry>, key: GoBytes): (i: nat)
    ensures i <= |es|
    ensures i < |es| ==> es[i].key == key
  {
    if es == [] || es[0].key == key then 0 else 1 + First(es[1..], key)
  }

  lemma {:induction false} FirstIsFirst(es: seq<Entry>, key: GoBytes, i: nat)
    requires i < First(es, key)
    ensures es[i].key != key
  {
    if i == 0 {
    } else {
      FirstIsFirst(es[1..], key, i - 1);
    }
  }

  /** A new key goes last; one that is there keeps its place. */
  function SetEntry(es: seq<Entry>, key: GoBytes, value: Value): seq<Entry> {
    var i := First(es, key);
    if i < |es| then es[i := Entry(key, value)] else es + [Entry(key, value)]
  }

  class Dict {
    var entries: seq<Entry>

    constructor ()
      ensures entries == []
    {
      entries := [];
    }

    method Set(key: GoBytes, value: Value)
      modifies this
      ensures entries == SetEntry(old(entries), key, value)
    {
      for i := 0 to |entries|
        invariant entries == old(entries)
        invariant First(entries, key) == i + First(entries[i..], key)
      {
        if entries[i].key == key {
          entries := entries[i := Entry(key, value)];
          return;
        }
        assert entries[i..][1..] == entries[i + 1..];
      }
      entries := entries + [Entry(key, value)];
    }
  }

  /** The last entry with a key, or none at all. */
  lemma LastEntry(es: seq<Entry>, key: GoBytes, j: nat)
    requires Encodable(Value.Dict(es))
    requires j < |es| ==> es[j].key == key && forall l :: j < l < |es| ==> es[l].key != key
    requires j >= |es| ==> forall l :: 0 <= l < |es| ==> es[l].key != key
    ensures j < |es| ==> key in Norm(Value.Dict(es)).texts && Norm(Value.Dict(es)).texts[key] == Norm(es[j].value)
    ensures j >= |es| ==> key !in Norm(Value.Dict(es)).texts
  {
    hide Norm, Encodable;
    var d := Value.Dict(es);
    LastWins(d, key, j);
    if j < |es| {
      assert LastPair(d, 0, key, j);
    } else {
      assert NoPair(d, 0, key);
    }
  }

  /** The number of the last entry with a key; the number of entries if there is none. */
  function Last(es: seq<Entry>, key: GoBytes): (j: nat)
    ensures j <= |es|
    ensures j < |es| ==> es[j].key == key
  {
    if es == [] then 0
    else if es[|es| - 1].key == key then |es| - 1
    else
      var j := Last(es[..|es| - 1], key);
      if j == |es| - 1 then |es| else j
  }

  lemma {:induction false} LastIsLast(es: seq<Entry>, key: GoBytes, l: nat)
    requires l < |es| && es[l].key == key
    ensures l <= Last(es, key) < |es|
  {
    if l == |es| - 1 || es[|es| - 1].key == key {
    } else {
      LastIsLast(es[..|es| - 1], key, l);
    }
  }

  /** What is received for a key. */
  ghost function ReceivedFor(es: seq<Entry>, key: GoBytes): Option<Value>
    requires Encodable(Value.Dict(es))
  {
    var m := Norm(Value.Dict(es)).texts;
    if key in m then Some(m[key]) else None
  }

  lemma ReceivedIsLast(es: seq<Entry>, key: GoBytes)
    requires Encodable(Value.Dict(es))
    ensures ReceivedFor(es, key) == if Last(es, key) < |es| then Some(Norm(es[Last(es, key)].value)) else None
  {
    forall l | 0 <= l < |es| && es[l].key == key ensures l <= Last(es, key) < |es| {
      LastIsLast(es, key, l);
    }
    hide Norm;
    LastEntry(es, key, Last(es, key));
  }

  lemma SetEncodable(es: seq<Entry>, key: GoBytes, value: Value)
    requires Encodable(Value.Dict(es)) && Encodable(value)
    ensures Encodable(Value.Dict(SetEntry(es, key, value)))
  {
    hide First;
  }

  lemma SetLast(es: seq<Entry>, key: GoBytes, value: Value, k: GoBytes)
    ensures var after := SetEntry(es, key, value);
      if k == key && First(es, key) == Last(es, key)
      then Last(after, k) < |after| && after[Last(after, k)] == Entry(key, value)
      else if Last(es, k) < |es| then Last(after, k) == Last(es, k) && after[Last(after, k)].value == es[Last(es, k)].value
      else Last(after, k) == |after|
  {
    var i := First(es, key);
    var after := SetEntry(es, key, value);
    if i < |es| {
      SameKeysLast(es, after, k);
      LastIsLast(es, key, i);
    } else {
      assert after[..|es|] == es;
      if Last(es, key) < |es| {
        FirstIsFirst(es, key, Last(es, key));
      }
    }
  }

  lemma {:induction false} SameKeysLast(a: seq<Entry>, b: seq<Entry>, k: GoBytes)
    requires |a| == |b| && forall i :: 0 <= i < |a| ==> a[i].key == b[i].key
    ensures Last(a, k) == Last(b, k)
  {
    if a == [] {
    } else {
      SameKeysLast(a[..|a| - 1], b[..|b| - 1], k);
    }
  }

  /** Setting a key and sending the dictionary is updating the map that is received, for
      every key that does not occur twice; of one that does, the receiver still sees the
      last value. */
  lemma SetIsReceived(es: seq<Entry>, key: GoBytes, value: Value, k: GoBytes)
    requires Encodable(Value.Dict(es)) && Encodable(value)
    ensures Encodable(Value.Dict(SetEntry(es, key, value)))
    ensures ReceivedFor(SetEntry(es, key, value), k)
         == if k == key && First(es, key) == Last(es, key) then Some(Norm(value)) else ReceivedFor(es, k)
  {
    hide Norm, ReceivedFor, Last, First;
    SetEncodable(es, key, value);
    SetLast(es, key, value, k);
    ReceivedIsLast(es, k);
    ReceivedIsLast(SetEntry(es, key, value), k);
  }

  /** A key that occurs twice: setting it to 3 changes the first of its entries, and the
      second is the one received. */
  lemma SetTwice(key: GoBytes)
    ensures var es := [Entry(key, Int(1)), Entry(key, Int(2))];
      && Encodable(Value.Dict(SetEntry(es, key, Int(3))))
      && SetEntry(es, key, Int(3)) == [Entry(key, Int(3)), Entry(key, Int(2))]
      && ReceivedFor(SetEntry(es, key, Int(3)), key) == Some(Int(2))
  {
    var after := [Entry(key, Int(3)), Entry(key, Int(2))];
    assert Last(after, key) == 1;
    ReceivedIsLast(after, key);
  }

  lemma {:induction false} SameKeysFirst(a: seq<Entry>, b: seq<Entry>, k: GoBytes)
    requires |a| == |b| && forall i :: 0 <= i < |a| ==> a[i].key == b[i].key
    ensures First(a, k) == First(b, k)
  {
    if a == [] || a[0].key == k {
    } else {
      SameKeysFirst(a[1..], b[1..], k);
    }
  }

  lemma {:induction false} FirstAppend(es: seq<Entry>, e: Entry, k: GoBytes)
    ensures First(es + [e], k) == if First(es, k) < |es| || e.key == k then First(es, k) else |es| + 1
  {
    if es != [] {
      assert (es + [e])[0] == es[0] && (es + [e])[1..] == es[1..] + [e];
      if es[0].key != k {
        FirstAppend(es[1..], e, k);
      }
    } else {
      assert ([] + [e])[1..] == [];
    }
  }

  /** Keys that were only ever set do not occur twice. */
  lemma SetKeepsSingle(es: seq<Entry>, key: GoBytes, value: Value, k: GoBytes)
    requires First(es, k) == Last(es, k)
    ensures First(SetEntry(es, key, value), k) == Last(SetEntry(es, key, value), k)
  {
    hide First, Last;
    var after := SetEntry(es, key, value);
    if First(es, key) < |es| {
      SameKeysFirst(es, after, k);
      SameKeysLast(es, after, k);
    } else {
      FirstAppend(es, Entry(key, value), k);
      LastAppend(es, Entry(key, value), k);
    }
  }

  lemma LastAppend(es: seq<Entry>, e: Entry, k: GoBytes)
    ensures Last(es + [e], k) == if e.key == k then |es| else if Last(es, k) < |es| then Last(es, k) else |es| + 1
  {
    assert (es + [e])[..|es|] == es;
  }
}
