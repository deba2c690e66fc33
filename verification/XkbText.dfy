/** Searching, trimming, splitting and number parsing, as Go's strings and strconv do
    them, on text taken as its code points. */
module XkbText {
  import opened Bytes

  // ---- searching -------------------------------------------------------------------

  function Shift(n: nat, r: Option<nat>): Option<nat> {
    if r.Some? then Some(n + r.value) else None
  }

  /** strings.IndexByte */
  function IndexByte(s: string, c: char): (r: Option<nat>)
    ensures r.Some? ==> r.value < |s| && s[r.value] == c
  {
    if s == [] then None else if s[0] == c then Some(0) else Shift(1, IndexByte(s[1..], c))
  }

  /** It is the first place of the character. */
  lemma {:induction false} IndexByteFirst(s: string, c: char)
    ensures IndexByte(s, c).None? <==> c !in s
    ensures IndexByte(s, c).Some? ==>
      IndexByte(s, c).value < |s| && s[IndexByte(s, c).value] == c && c !in s[..IndexByte(s, c).value]
  {
    if s == [] || s[0] == c {
    } else {
      IndexByteFirst(s[1..], c);
      assert s == [s[0]] + s[1..];
      if IndexByte(s, c).Some? {
        var i := IndexByte(s, c).value;
        assert s[..i] == [s[0]] + s[1..][..i - 1];
      }
    }
  }

  lemma {:induction false} IndexByteAt(a: string, c: char, b: string)
    requires c !in a
    ensures IndexByte(a + [c] + b, c) == Some(|a|)
  {
    if a == [] {
    } else {
      assert (a + [c] + b)[1..] == a[1..] + [c] + b;
      IndexByteAt(a[1..], c, b);
    }
  }

  /** strings.Index */
  function Index(s: string, word: string): (r: Option<nat>)
    ensures r.Some? ==> r.value + |word| <= |s| && s[r.value..r.value + |word|] == word
  {
    if word <= s then Some(0) else if s == [] then None else Shift(1, Index(s[1..], word))
  }

  predicate StartsAt(s: string, word: string, i: nat) {
    i <= |s| && word <= s[i..]
  }

  lemma IndexStep(s: string, word: string)
    requires s != [] && !StartsAt(s, word, 0)
    ensures Index(s, word) == Shift(1, Index(s[1..], word))
  {
    assert s[0..] == s;
  }

  lemma StartsInTail(s: string, word: string, i: nat)
    requires s != []
    ensures StartsAt(s[1..], word, i) <==> StartsAt(s, word, i + 1)
  {
    if i <= |s[1..]| {
      assert s[1..][i..] == s[i + 1..];
    }
  }

  /** Text in which the word does not start anywhere is skipped. */
  lemma {:induction false} IndexSkip(a: string, s: string, word: string)
    requires forall i :: 0 <= i < |a| ==> !StartsAt(a + s, word, i)
    ensures Index(a + s, word) == Shift(|a|, Index(s, word))
  {
    hide StartsAt, Index;
    if a == [] {
      assert a + s == s;
    } else {
      IndexStep(a + s, word);
      assert (a + s)[1..] == a[1..] + s;
      forall i | 0 <= i < |a[1..]| ensures !StartsAt(a[1..] + s, word, i) {
        StartsInTail(a + s, word, i);
      }
      IndexSkip(a[1..], s, word);
    }
  }

  lemma NotAt(s: string, word: string, i: nat, j: nat)
    requires j < |word| && (i + j < |s| ==> s[i + j] != word[j])
    ensures !StartsAt(s, word, i)
  {
    if i + j < |s| {
      assert s[i..][j] == s[i + j];
    }
  }

  /** The word cannot start where its first letter does not occur. */
  lemma IndexAfter(a: string, s: string, word: string)
    requires word != [] && word[0] !in a
    ensures Index(a + s, word) == Shift(|a|, Index(s, word))
  {
    forall i | 0 <= i < |a| ensures !StartsAt(a + s, word, i) {
      assert (a + s)[i] == a[i];
      NotAt(a + s, word, i, 0);
    }
    IndexSkip(a, s, word);
  }

  /** Nor at the front of text that differs from it at j. */
  lemma IndexAfterOther(a: string, s: string, word: string, j: nat)
    requires a != [] && word != [] && word[0] !in a[1..]
    requires j < |a| && j < |word| && a[j] != word[j]
    ensures Index(a + s, word) == Shift(|a|, Index(s, word))
  {
    forall i | 0 <= i < |a| ensures !StartsAt(a + s, word, i) {
      if i == 0 {
        assert (a + s)[j] == a[j];
        NotAt(a + s, word, 0, j);
      } else {
        assert (a + s)[i] == a[1..][i - 1];
        NotAt(a + s, word, i, 0);
      }
    }
    IndexSkip(a, s, word);
  }

  /** Nor in text that lacks its letter j, if what ends the text cannot be inside it. */
  lemma IndexAfterWithout(a: string, end: string, s: string, word: string, j: nat)
    requires j < |word| && word[j] !in a && word[j] !in end
    requires end != [] && end[0] !in word && word[0] !in end
    ensures Index(a + end + s, word) == Shift(|a + end|, Index(s, word))
  {
    var t := a + end + s;
    forall i | 0 <= i < |a + end| ensures !StartsAt(t, word, i) {
      if i >= |a| {
        assert t[i] == end[i - |a|];
        NotAt(t, word, i, 0);
      } else if i + j < |a + end| {
        assert t[i + j] == (a + end)[i + j];
        NotAt(t, word, i, j);
      } else {
        assert t[|a|] == end[0];
        NotAt(t, word, i, |a| - i);
      }
    }
    IndexSkip(a + end, s, word);
  }

  lemma {:induction false} NotIn(s: string, word: string, i: nat)
    requires Index(s, word).None? && i <= |s|
    ensures !StartsAt(s, word, i)
  {
    if i == 0 {
      assert s[0..] == s;
    } else {
      NotIn(s[1..], word, i - 1);
      StartsInTail(s, word, i - 1);
    }
  }

  /** Nor in text without it, if what follows starts with a letter that only the word's
      first is equal to. */
  lemma IndexAfterNone(a: string, s: string, word: string)
    requires word != [] && s != [] && Index(a, word).None? && s[0] !in word[1..]
    ensures Index(a + s, word) == Shift(|a|, Index(s, word))
  {
    hide Index, StartsAt;
    forall i | 0 <= i < |a| ensures !StartsAt(a + s, word, i) {
      if i + |word| <= |a| {
        NotIn(a, word, i);
        WithinFirst(a, s, word, i);
      } else {
        assert (a + s)[|a|] == s[0] && word[|a| - i] == word[1..][|a| - i - 1];
        NotAt(a + s, word, i, |a| - i);
      }
    }
    IndexSkip(a, s, word);
  }

  lemma WithinFirst(a: string, s: string, word: string, i: nat)
    requires i + |word| <= |a|
    ensures StartsAt(a + s, word, i) <==> StartsAt(a, word, i)
  {
    assert (a + s)[i..][..|word|] == a[i..][..|word|];
  }

  // ---- trimming --------------------------------------------------------------------

  /** unicode.IsSpace */
  predicate Space(c: char) {
    || c == ' ' || '\t' <= c <= '\r' || c == '\U{85}' || c == '\U{A0}' || c == '\U{1680}'
    || '\U{2000}' <= c <= '\U{200A}' || c == '\U{2028}' || c == '\U{2029}' || c == '\U{202F}'
    || c == '\U{205F}' || c == '\U{3000}'
  }

  predicate Blank(s: string) {
    forall i :: 0 <= i < |s| ==> Space(s[i])
  }

  function TrimLeft(s: string): string {
    if s != [] && Space(s[0]) then TrimLeft(s[1..]) else s
  }

  function TrimRight(s: string): string {
    if s != [] && Space(s[|s| - 1]) then TrimRight(s[..|s| - 1]) else s
  }

  /** strings.TrimSpace */
  function Trim(s: string): string {
    TrimRight(TrimLeft(s))
  }

  lemma {:induction false} TrimLeftPadded(a: string, s: string)
    requires Blank(a) && (s == [] || !Space(s[0]))
    ensures TrimLeft(a + s) == s
  {
    if a == [] {
      assert a + s == s;
    } else {
      assert (a + s)[1..] == a[1..] + s;
      TrimLeftPadded(a[1..], s);
    }
  }

  lemma {:induction false} TrimRightPadded(s: string, b: string)
    requires Blank(b) && (s == [] || !Space(s[|s| - 1]))
    ensures TrimRight(s + b) == s
  {
    if b == [] {
      assert s + b == s;
    } else {
      assert (s + b)[..|s + b| - 1] == s + b[..|b| - 1];
      TrimRightPadded(s, b[..|b| - 1]);
    }
  }

  lemma TrimPadded(a: string, s: string, b: string)
    requires Blank(a) && Blank(b) && s != [] && !Space(s[0]) && !Space(s[|s| - 1])
    ensures Trim(a + s + b) == s
  {
    assert a + s + b == a + (s + b);
    TrimLeftPadded(a, s + b);
    TrimRightPadded(s, b);
  }

  lemma TrimBlank(s: string)
    requires Blank(s)
    ensures Trim(s) == []
  {
    TrimLeftPadded(s, []);
    assert s + [] == s;
  }

  // ---- splitting -------------------------------------------------------------------

  /** strings.Split at single characters. */
  function Split(s: string, c: char): (r: seq<string>)
    ensures |r| >= 1
  {
    if s == [] then [[]]
    else
      var rest := Split(s[1..], c);
      if s[0] == c then [[]] + rest else [[s[0]] + rest[0]] + rest[1..]
  }

  lemma {:induction false} SplitAt(a: string, c: char, b: string)
    requires c !in a
    ensures Split(a + [c] + b, c) == [a] + Split(b, c)
  {
    var s := a + [c] + b;
    if a == [] {
      assert s[0] == c && s[1..] == b;
    } else {
      assert s[0] == a[0] && s[1..] == a[1..] + [c] + b;
      SplitAt(a[1..], c, b);
      assert ([a[1..]] + Split(b, c))[1..] == Split(b, c);
      assert [a[0]] + a[1..] == a;
    }
  }

  lemma {:induction false} SplitNone(a: string, c: char)
    requires c !in a
    ensures Split(a, c) == [a]
  {
    if a == [] {
    } else {
      SplitNone(a[1..], c);
      assert [a[0]] + a[1..] == a;
    }
  }

  /** The pieces joined by a separator. */
  function Join(pieces: seq<string>, separator: string): string {
    if |pieces| == 0 then []
    else if |pieces| == 1 then pieces[0]
    else pieces[0] + separator + Join(pieces[1..], separator)
  }

  // ---- numbers -----------------------------------------------------------------------

  function DigitOf(c: char): Option<nat> {
    if '0' <= c <= '9' then Some(c as int - '0' as int)
    else if 'a' <= c <= 'z' then Some(c as int - 'a' as int + 10)
    else if 'A' <= c <= 'Z' then Some(c as int - 'A' as int + 10)
    else None
  }

  function DigitChar(d: nat): (c: char)
    requires d < 36
    ensures DigitOf(c) == Some(d) && ('0' <= c <= '9' || 'a' <= c <= 'z')
  {
    if d < 10 then ('0' as int + d) as char else ('a' as int + d - 10) as char
  }

  function Digits(n: nat, base: nat): (s: string)
    requires 2 <= base <= 36
    ensures s != []
  {
    if n < base then [DigitChar(n)] else Digits(n / base, base) + [DigitChar(n % base)]
  }

  lemma {:induction false} DigitsPlain(n: nat, base: nat)
    requires 2 <= base <= 36
    ensures forall i :: 0 <= i < |Digits(n, base)| ==> '0' <= Digits(n, base)[i] <= '9' || 'a' <= Digits(n, base)[i] <= 'z'
  {
    if n < base {
    } else {
      DigitsPlain(n / base, base);
    }
  }

  /** The value of digits; None if a character is not a digit of the base. */
  function DigitsNumber(s: string, base: nat): Option<nat> {
    if s == [] then Some(0)
    else
      var before, d := DigitsNumber(s[..|s| - 1], base), DigitOf(s[|s| - 1]);
      if before.Some? && d.Some? && d.value < base then Some(before.value * base + d.value) else None
  }

  lemma {:induction false} DigitsRoundTrip(n: nat, base: nat)
    requires 2 <= base <= 36
    ensures DigitsNumber(Digits(n, base), base) == Some(n)
  {
    hide DigitOf, DigitChar;
    var s := Digits(n, base);
    DivMod(n, base);
    if n < base {
      assert s[..|s| - 1] == [];
    } else {
      assert s[..|s| - 1] == Digits(n / base, base);
      DigitsRoundTrip(n / base, base);
    }
  }

  lemma DivMod(n: nat, base: nat)
    requires base >= 2
    ensures n / base * base + n % base == n && 0 <= n % base < base
    ensures n >= base ==> 0 < n / base < n
  {
  }

  /** strconv.ParseUint(s, base, 32) */
  function ParseUint(s: string, base: nat): Option<nat> {
    var n := DigitsNumber(s, base);
    if s == [] || n.None? || n.value > 0xffff_ffff then None else n
  }

  /** Letters of either case stand for the same digits. */
  function Lower(c: char): char {
    if 'A' <= c <= 'Z' then ('a' as int + c as int - 'A' as int) as char else c
  }

  function Lowered(s: string): (t: string)
    ensures |t| == |s|
  {
    if s == [] then [] else Lowered(s[..|s| - 1]) + [Lower(s[|s| - 1])]
  }

  function Zeros(k: nat): string {
    seq(k, _ => '0')
  }

  /** s is n in a base: its digits, in letters of either case, with k zeros in front. */
  ghost predicate Writes(s: string, n: nat, base: nat, k: nat)
    requires 2 <= base <= 36
  {
    Lowered(s) == Zeros(k) + Digits(n, base)
  }

  lemma {:induction false} LoweredNumber(s: string, base: nat)
    ensures DigitsNumber(Lowered(s), base) == DigitsNumber(s, base)
  {
    if s == [] {
    } else {
      var t := Lowered(s);
      assert t[..|t| - 1] == Lowered(s[..|s| - 1]);
      LoweredNumber(s[..|s| - 1], base);
    }
  }

  lemma {:induction false} ZerosNumber(k: nat, s: string, base: nat)
    requires base >= 1
    ensures DigitsNumber(Zeros(k) + s, base) == DigitsNumber(s, base)
    decreases k + |s|
  {
    var t := Zeros(k) + s;
    if s != [] {
      assert t[..|t| - 1] == Zeros(k) + s[..|s| - 1];
      ZerosNumber(k, s[..|s| - 1], base);
    } else if k > 0 {
      assert t[..|t| - 1] == Zeros(k - 1) + [];
      ZerosNumber(k - 1, [], base);
    }
  }

  /** The digits of a number below 2 to the 32nd are read as it, whatever the case of their
      letters and with any number of zeros in front; those of a larger one are refused. */
  lemma NumberRead(s: string, n: nat, base: nat, k: nat)
    requires 2 <= base <= 36 && Writes(s, n, base, k)
    ensures ParseUint(s, base) == if n < 0x1_0000_0000 then Some(n) else None
  {
    hide DigitsNumber, DigitOf;
    LoweredNumber(s, base);
    ZerosNumber(k, Digits(n, base), base);
    DigitsRoundTrip(n, base);
  }

  lemma DigitLower(c: char, base: nat)
    requires 2 <= base <= 36 && DigitOf(c).Some? && DigitOf(c).value < base
    ensures Lower(c) == DigitChar(DigitOf(c).value)
  {
  }

  /** One more digit behind a number. */
  lemma DigitsNext(m: nat, d: nat, base: nat)
    requires 2 <= base <= 36 && d < base
    ensures Digits(m * base + d, base) == if m == 0 then [DigitChar(d)] else Digits(m, base) + [DigitChar(d)]
  {
    hide DigitChar;
    DivMod(m * base + d, base);
    Quotient(m, d, base);
    if m > 0 {
      assert m * base >= base;
    }
  }

  lemma Quotient(m: nat, d: nat, base: nat)
    requires d < base
    ensures (m * base + d) / base == m && (m * base + d) % base == d
  {
    var q, r := (m * base + d) / base, (m * base + d) % base;
    assert q * base + r == m * base + d;
    if q < m {
      Scaled(q + 1, m, base);
    } else if q > m {
      Scaled(m + 1, q, base);
    }
  }

  lemma Scaled(a: nat, b: nat, k: nat)
    requires a <= b
    ensures a * k <= b * k
  {
  }

  lemma {:induction false} NumberOnly(s: string, base: nat)
    requires 2 <= base <= 36 && s != [] && DigitsNumber(s, base).Some?
    ensures exists k: nat :: Writes(s, DigitsNumber(s, base).value, base, k)
  {
    var front, d := s[..|s| - 1], DigitOf(s[|s| - 1]).value;
    DigitLower(s[|s| - 1], base);
    if front == [] {
      LastDigit(s, base, 0, 0, d);
    } else {
      NumberOnly(front, base);
      var k: nat :| Writes(front, DigitsNumber(front, base).value, base, k);
      hide Writes;
      LastDigit(s, base, DigitsNumber(front, base).value, k, DigitsNumber(s, base).value);
    }
  }

  /** Nothing else is read as a number. */
  lemma ParsedNumber(s: string, base: nat)
    requires 2 <= base <= 36 && ParseUint(s, base).Some?
    ensures ParseUint(s, base).value < 0x1_0000_0000
    ensures exists k: nat :: Writes(s, ParseUint(s, base).value, base, k)
  {
    hide DigitsNumber, Writes;
    NumberOnly(s, base);
  }

  lemma LastDigit(s: string, base: nat, m: nat, k: nat, n: nat)
    requires 2 <= base <= 36 && s != [] && DigitOf(s[|s| - 1]).Some? && DigitOf(s[|s| - 1]).value < base
    requires if |s| == 1 then m == 0 else Writes(s[..|s| - 1], m, base, k)
    requires n == m * base + DigitOf(s[|s| - 1]).value
    ensures exists l: nat :: Writes(s, n, base, l)
  {
    var d := DigitOf(s[|s| - 1]).value;
    DigitLower(s[|s| - 1], base);
    DigitsNext(m, d, base);
    hide DigitOf, DigitChar, Lower;
    if |s| == 1 {
      assert Lowered(s) == Zeros(0) + [DigitChar(d)];
      assert Writes(s, n, base, 0);
    } else if m == 0 {
      assert Digits(0, base) == ['0'] by { ZeroDigit(base); }
      assert Lowered(s) == Zeros(k + 1) + [DigitChar(d)];
      assert Writes(s, n, base, k + 1);
    } else {
      assert Lowered(s) == Zeros(k) + (Digits(m, base) + [DigitChar(d)]);
      assert Writes(s, n, base, k);
    }
  }

  lemma ZeroDigit(base: nat)
    requires 2 <= base <= 36
    ensures Digits(0, base) == ['0']
  {
  }
}
