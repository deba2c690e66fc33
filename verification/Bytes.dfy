/** Bytes and the number formats the client puts on the wire: big-endian words
    (encoding/binary), base-256 naturals (math/big), and decimal text (strconv). */
module Bytes {

  type byte = b: int | 0 <= b < 256

  const MAX_INT64: int := 0x7fff_ffff_ffff_ffff
  const MIN_INT64: int := -0x8000_0000_0000_0000

  type int64 = n: int | MIN_INT64 <= n <= MAX_INT64
  type uint64 = n: int | 0 <= n <= 0xffff_ffff_ffff_ffff

  /** A Go string or []byte: its length is an int, so it never exceeds MAX_INT64. */
  type GoBytes = s: seq<byte> | |s| <= MAX_INT64

  datatype Option<+T> = None | Some(value: T)

  datatype Result<+T, +E> = Ok(value: T) | Err(error: E)

  function Min(a: int, b: int): int {
    if a <= b then a else b
  }

  function Max(a: int, b: int): int {
    if a >= b then a else b
  }

  /** The concatenation of a list of byte strings. */
  function Concat(parts: seq<seq<byte>>): seq<byte> {
    if parts == [] then [] else parts[0] + Concat(parts[1..])
  }

  lemma {:induction false} ConcatAppend(a: seq<seq<byte>>, b: seq<seq<byte>>)
    ensures Concat(a + b) == Concat(a) + Concat(b)
  {
    if a == [] {
      assert a + b == b;
    } else {
      assert (a + b)[1..] == a[1..] + b;
      ConcatAppend(a[1..], b);
    }
  }

  lemma ConcatSnoc(a: seq<seq<byte>>, x: seq<byte>)
    ensures Concat(a + [x]) == Concat(a) + x
  {
    ConcatAppend(a, [x]);
    assert [x][1..] == [];
  }

  lemma SliceOfSlice<T>(s: seq<T>, at: nat, n: nat, i: nat, m: nat)
    requires at + n <= |s| && i + m <= n
    ensures s[at..at + n][i..i + m] == s[at + i..at + i + m]
  {
    var a, b := s[at..at + n][i..i + m], s[at + i..at + i + m];
    assert |a| == |b| == m;
    forall k | 0 <= k < m ensures a[k] == b[k] {
      assert a[k] == s[at..at + n][i + k] == s[at + i + k];
    }
  }

  lemma SliceOfAppend<T>(a: seq<T>, b: seq<T>, i: nat, j: nat)
    requires i <= j <= |a|
    ensures (a + b)[i..j] == a[i..j]
  {
  }

  /** Everything in a but the bytes [from, to) is as in b. */
  ghost predicate SameOutside(a: seq<byte>, b: seq<byte>, from: int, to: int) {
    |a| == |b| && forall k :: 0 <= k < |a| && !(from <= k < to) ==> a[k] == b[k]
  }

  // ---- base 256 ------------------------------------------------------------

  function Pow256(k: nat): (p: int)
    ensures p >= 1
  {
    if k == 0 then 1 else 256 * Pow256(k - 1)
  }

  /** The k-byte big-endian form of n. */
  function BigEndian(n: nat, k: nat): (s: seq<byte>)
    requires n < Pow256(k)
    ensures |s| == k
  {
    if k == 0 then [] else BigEndian(n / 256, k - 1) + [n % 256]
  }

  function FromBigEndian(s: seq<byte>): (n: nat)
    ensures n < Pow256(|s|)
  {
    if s == [] then 0 else FromBigEndian(s[..|s| - 1]) * 256 + s[|s| - 1]
  }

  lemma {:induction false} BigEndianRoundTrip(n: nat, k: nat)
    requires n < Pow256(k)
    ensures FromBigEndian(BigEndian(n, k)) == n
  {
    if k == 0 {
    } else {
      var s := BigEndian(n, k);
      assert s[..k - 1] == BigEndian(n / 256, k - 1);
      BigEndianRoundTrip(n / 256, k - 1);
    }
  }

  lemma {:induction false} ReadBigEndian(s: seq<byte>)
    ensures BigEndian(FromBigEndian(s), |s|) == s
  {
    if s == [] {
    } else {
      ReadBigEndian(s[..|s| - 1]);
    }
  }

  /** Go's conversion of a signed k-byte integer to the unsigned one. */
  function ToUnsigned(n: int, k: nat): (u: nat)
    requires -Pow256(k) <= 2 * n < Pow256(k)
    ensures u < Pow256(k)
  {
    if n < 0 then n + Pow256(k) else n
  }

  function ToSigned(u: nat, k: nat): (n: int)
    requires u < Pow256(k)
    ensures -Pow256(k) <= 2 * n < Pow256(k)
    ensures n < 0 ==> n + Pow256(k) == u
  {
    if 2 * u >= Pow256(k) then u - Pow256(k) else u
  }

  // ---- decimal text --------------------------------------------------------

  predicate AllDigits(s: seq<byte>) {
    forall i :: 0 <= i < |s| ==> 48 <= s[i] <= 57
  }

  function Decimal(n: nat): (s: seq<byte>)
    ensures 1 <= |s| <= 1 + n / 10
    ensures AllDigits(s)
  {
    if n < 10 then [48 + n] else Decimal(n / 10) + [48 + n % 10]
  }

  function DigitsValue(s: seq<byte>): (n: int)
    requires AllDigits(s)
    ensures n >= 0
  {
    if s == [] then 0 else DigitsValue(s[..|s| - 1]) * 10 + (s[|s| - 1] - 48)
  }

  lemma {:induction false} DecimalRoundTrip(n: nat)
    ensures DigitsValue(Decimal(n)) == n
  {
    var s := Decimal(n);
    if n < 10 {
      assert s[..|s| - 1] == [];
    } else {
      assert s[..|s| - 1] == Decimal(n / 10);
      DecimalRoundTrip(n / 10);
    }
  }

  /** strconv.FormatInt(n, 10), which is also big.Int.Append(_, 10). */
  function FormatInt(n: int): (s: seq<byte>)
    ensures 1 <= |s|
    ensures |s| <= 2 + (if n < 0 then -n else n) / 10
    ensures forall i :: 0 <= i < |s| ==> s[i] == 45 || 48 <= s[i] <= 57
  {
    if n < 0 then [45] + Decimal(-n) else Decimal(n)
  }

  /** big.Int.SetString(s, 10): an optional sign and at least one digit. */
  function ParseInt(s: seq<byte>): Option<int> {
    var digits := if s != [] && s[0] in {43, 45} then s[1..] else s;
    if digits == [] || !AllDigits(digits) then None
    else if s[0] == 45 then Some(-DigitsValue(digits))
    else Some(DigitsValue(digits))
  }

  lemma FormatIntRoundTrip(n: int)
    ensures ParseInt(FormatInt(n)) == Some(n)
  {
    DecimalRoundTrip(if n < 0 then -n else n);
    if n < 0 {
      assert FormatInt(n)[1..] == Decimal(-n);
    }
  }

  lemma {:induction false} NoLeadingZero(n: nat)
    ensures Decimal(n)[0] == 48 ==> n == 0
  {
    if n < 10 {
    } else {
      NoLeadingZero(n / 10);
    }
  }

  /** The decimal form: digits without a zero in front that is not alone, after a minus
      sign for negative numbers and no sign for others. */
  lemma FormatIntPlain(n: int)
    ensures n >= 0 ==> AllDigits(FormatInt(n)) && DigitsValue(FormatInt(n)) == n && (FormatInt(n)[0] == 48 ==> FormatInt(n) == [48])
    ensures n < 0 ==> FormatInt(n) == [45] + FormatInt(-n)
  {
    if n >= 0 {
      DecimalRoundTrip(n);
      NoLeadingZero(n);
    }
  }

  lemma FormatIntInjective(a: int, b: int)
    requires FormatInt(a) == FormatInt(b)
    ensures a == b
  {
    FormatIntRoundTrip(a);
    FormatIntRoundTrip(b);
  }

  /** strconv.Atoi on text that starts with a digit: digits only, within an int. */
  function Atoi(s: seq<byte>): (r: Option<int64>)
    ensures r.Some? ==> r.value >= 0
  {
    if s == [] || !AllDigits(s) || DigitsValue(s) > MAX_INT64 then None
    else Some(DigitsValue(s))
  }
}
