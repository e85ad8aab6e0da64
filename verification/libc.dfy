/** The pieces of the C library that src/util.c leans on, stated over Dafny
    values: C strings in character buffers, strspn(), strlen(), strrchr(),
    atoi() on a string of digits, the "%ld" conversion and the bounded copy
    of snprintf(), and C's truncating integer division. */
module LibC {

  datatype Option<T> = None | Some(value: T)

  /** The terminator of a C string. */
  const NUL: char := '\0'

  /** The range of a C `long` (LP64) and the largest C `int`. */
  const LONG_MIN: int := -0x8000_0000_0000_0000
  const LONG_MAX: int := 0x7fff_ffff_ffff_ffff
  const INT_MAX: int := 0x7fff_ffff

  /** errno value for an invalid argument on Linux. */
  const EINVAL: int := 22

  /** A C `int`. */
  newtype int32 = x: int | -0x8000_0000 <= x <= 0x7fff_ffff

  function Min(a: int, b: int): int { if a <= b then a else b }

  function Pow10(k: nat): (p: nat)
    ensures p >= 1
  {
    if k == 0 then 1 else 10 * Pow10(k - 1)
  }

  predicate IsDigit(c: char) { '0' <= c <= '9' }

  predicate NotNul(c: char) { c != NUL }

  /** isprint() in the C locale: the ASCII characters from blank to tilde. */
  predicate IsPrint(c: char) { ' ' <= c <= '~' }

  predicate StartsWith(s: seq<char>, prefix: seq<char>) {
    |prefix| <= |s| && s[..|prefix|] == prefix
  }

  // ---------------------------------------------------------------- strspn

  /** strspn(): the length of the longest prefix of s made of accepted characters. */
  function Span(s: seq<char>, accept: char -> bool): (n: nat)
    ensures n <= |s|
    ensures forall j :: 0 <= j < n ==> accept(s[j])
    ensures n < |s| ==> !accept(s[n])
  {
    if s == [] || !accept(s[0]) then 0 else 1 + Span(s[1..], accept)
  }

  /** A prefix of accepted characters ended by a refused one (or by the end) is the span. */
  lemma {:induction false} SpanIs(s: seq<char>, accept: char -> bool, n: nat)
    requires n <= |s|
    requires forall j :: 0 <= j < n ==> accept(s[j])
    requires n < |s| ==> !accept(s[n])
    ensures Span(s, accept) == n
  {
    if n > 0 {
      SpanIs(s[1..], accept, n - 1);
    }
  }

  /** The span stops inside the buffer when some character is refused. */
  lemma SpanBelow(s: seq<char>, accept: char -> bool, k: nat)
    requires k < |s| && !accept(s[k])
    ensures Span(s, accept) <= k
  {
  }

  // ---------------------------------------------------------------- strlen

  /** strlen(): the index of the first NUL of a buffer that holds one. */
  function Strlen(buf: seq<char>): (n: nat)
    requires NUL in buf
    ensures n < |buf| && buf[n] == NUL
    ensures NUL !in buf[..n]
  {
    var k :| 0 <= k < |buf| && buf[k] == NUL;
    SpanBelow(buf, NotNul, k);
    Span(buf, NotNul)
  }

  // --------------------------------------------------------------- strrchr

  /** strrchr(): the index of the last occurrence of c in s, if there is one. */
  function LastIndex(s: seq<char>, c: char): (r: Option<nat>)
    ensures r.None? <==> c !in s
    ensures r.Some? ==> r.value < |s| && s[r.value] == c && c !in s[r.value + 1..]
  {
    if s == [] then None
    else if s[|s| - 1] == c then Some(|s| - 1)
    else
      assert s == s[..|s| - 1] + [s[|s| - 1]];
      LastIndex(s[..|s| - 1], c)
  }

  // ------------------------------------------------------------------ atoi

  function DigitValue(c: char): nat
    requires IsDigit(c)
  {
    c as int - '0' as int
  }

  function DigitChar(d: nat): (c: char)
    requires d < 10
    ensures IsDigit(c) && DigitValue(c) == d
  {
    ('0' as int + d) as char
  }

  predicate AllDigits(ds: seq<char>) {
    forall j :: 0 <= j < |ds| ==> IsDigit(ds[j])
  }

  /** The number a string of decimal digits denotes, most significant digit first. */
  function DecimalValue(ds: seq<char>): (n: nat)
    requires AllDigits(ds)
    ensures n < Pow10(|ds|)
  {
    if ds == [] then 0
    else 10 * DecimalValue(ds[..|ds| - 1]) + DigitValue(ds[|ds| - 1])
  }

  /** A buffer holding a C string made of decimal digits only. */
  predicate IsDigitString(buf: seq<char>) {
    var n := Span(buf, IsDigit);
    n < |buf| && buf[n] == NUL
  }

  /** atoi() on a string of digits: the value of the digits before the NUL.
      (Leading blanks and a sign, which atoi() also accepts, never occur here.) */
  function Atoi(buf: seq<char>): (n: nat)
    requires IsDigitString(buf)
    ensures n < Pow10(Strlen(buf))
  {
    var k := Span(buf, IsDigit);
    SpanIs(buf, NotNul, k);
    DecimalValue(buf[..k])
  }

  // -------------------------------------------------------- snprintf "%ld"

  /** The text snprintf() produces for "%ld": an optional minus sign, then the
      decimal digits without leading zeros. */
  function DecimalText(n: int): (s: seq<char>)
    ensures |s| > 0
    ensures n >= 0 ==> AllDigits(s)
    ensures n < 0 ==> s[0] == '-' && AllDigits(s[1..])
    ensures NUL !in s && ' ' !in s
    ensures s[0] == '0' ==> s == "0"
    ensures n < 0 ==> |s| >= 2 && s[1] != '0'
    decreases if n < 0 then 1 - n else n
  {
    if n < 0 then "-" + DecimalText(-n)
    else if n < 10 then [DigitChar(n)]
    else DecimalText(n / 10) + [DigitChar(n % 10)]
  }

  /** Reading back the digits "%ld" prints gives the number printed. */
  lemma {:induction false} DecimalRoundTrip(n: nat)
    ensures DecimalValue(DecimalText(n)) == n
  {
    if n >= 10 {
      var s := DecimalText(n);
      assert s[..|s| - 1] == DecimalText(n / 10);
      DecimalRoundTrip(n / 10);
    }
  }

  /** A negative number prints as a minus sign and the digits of its magnitude. */
  lemma DecimalRoundTripNegative(n: int)
    requires n < 0
    ensures var s := DecimalText(n); s[0] == '-' && DecimalValue(s[1..]) == -n
  {
    assert DecimalText(n)[1..] == DecimalText(-n);
    DecimalRoundTrip(-n);
  }

  /** A number below 10^k prints as at most k digits. */
  lemma {:induction false} DecimalTextLength(n: nat, k: nat)
    requires 1 <= k && n < Pow10(k)
    ensures |DecimalText(n)| <= k
  {
    if n >= 10 {
      assert k >= 2;
      DecimalTextLength(n / 10, k - 1);
    }
  }

  // ------------------------------------------------------- snprintf bounds

  /** The characters snprintf(dst, size, ...) keeps of the text it formats:
      at most size - 1 of them, and none when size is zero. */
  function Bounded(text: seq<char>, size: nat): (s: seq<char>)
    ensures size > 0 ==> |s| == Min(|text|, size - 1)
    ensures size == 0 ==> s == []
    ensures s == text[..|s|]
  {
    if size == 0 then [] else text[..Min(|text|, size - 1)]
  }

  /** The buffer after snprintf(dst, size, "%s", text) has written into it. */
  function Store(buf: seq<char>, size: nat, text: seq<char>): (r: seq<char>)
    requires size <= |buf|
    ensures |r| == |buf|
    ensures size == 0 ==> r == buf
    ensures forall j :: |Bounded(text, size)| < j < |buf| ==> r[j] == buf[j]
    ensures size > 0 && NUL !in text ==>
              NUL in r && r[..Strlen(r)] == Bounded(text, size)
  {
    if size == 0 then buf
    else
      var n := Min(|text|, size - 1);
      var r := text[..n] + [NUL] + buf[n + 1..];
      assert r[..n] == text[..n];
      if NUL !in text then
        assert forall j :: 0 <= j < n ==> r[j] != NUL;
        SpanIs(r, NotNul, n);
        r
      else r
  }

  /** snprintf(dst, size, "%s", text): copies what fits, then the terminator. */
  method Snprintf(dst: array<char>, size: nat, text: seq<char>)
    requires size <= dst.Length && NUL !in text
    modifies dst
    ensures dst[..] == Store(old(dst[..]), size, text)
  {
    if size == 0 {
      return;
    }
    var n := Min(|text|, size - 1);
    var i := 0;
    while i < n
      invariant 0 <= i <= n
      invariant forall j :: 0 <= j < i ==> dst[j] == text[j]
      invariant forall j :: i <= j < dst.Length ==> dst[j] == old(dst[j])
    {
      dst[i] := text[i];
      i := i + 1;
    }
    dst[n] := NUL;
    assert dst[..] == text[..n] + [NUL] + old(dst[..])[n + 1..];
  }

  // ------------------------------------------------------ integer division

  /** C's `/` on integers: the quotient truncated toward zero. */
  function Quot(a: int, b: int): (q: int)
    requires b > 0
    ensures a >= 0 ==> 0 <= q * b <= a < q * b + b
    ensures a <= 0 ==> q * b - b < a <= q * b <= 0
  {
    if a >= 0 then a / b else -((-a) / b)
  }

  /** C's `%` on integers: the remainder takes the sign of the dividend. */
  function Rem(a: int, b: int): (r: int)
    requires b > 0
    ensures Quot(a, b) * b + r == a
    ensures a >= 0 ==> 0 <= r < b
    ensures a <= 0 ==> -b < r <= 0
  {
    if a >= 0 then a % b else -((-a) % b)
  }

  /** Truncating division is the only one whose remainder has the dividend's
      sign and lies within the divisor. */
  lemma TruncatedDivisionUnique(a: int, b: int, q: int, r: int)
    requires b > 0 && q * b + r == a
    requires a >= 0 ==> 0 <= r < b
    requires a <= 0 ==> -b < r <= 0
    ensures q == Quot(a, b) && r == Rem(a, b)
  {
    var q0, r0 := Quot(a, b), Rem(a, b);
    var k := q - q0;
    assert k * b == r0 - r by {
      assert q * b - q0 * b == k * b;
    }
    assert -b < r0 - r < b;
    if k > 0 {
      AtLeastOnce(k, b);
    } else if k < 0 {
      AtLeastOnce(-k, b);
    }
  }

  lemma AtLeastOnce(k: int, b: int)
    requires k >= 1 && b > 0
    ensures k * b >= b
  {
  }
}
