// Decimal printing and parsing, `long_to_string` and `sm_atoi` of
// ev-sdk/utils/sm_string_util.c.
module Decimal {
  import opened Words

  const INT_MAX: int := 0x7FFF_FFFF

  function DigitChar(d: nat): char
    requires d < 10
  {
    "0123456789"[d]
  }

  predicate IsDigit(c: char) {
    '0' <= c <= '9'
  }

  lemma DigitCharIs(d: nat)
    requires d < 10
    ensures IsDigit(DigitChar(d)) && DigitChar(d) as int - 48 == d
  {
    assert DigitChar(d) == ((48 + d) as char);
  }

  /** The decimal notation of `n`. */
  function Digits(n: nat): (s: string)
    ensures |s| >= 1
  {
    if n < 10 then [DigitChar(n)] else Digits(n / 10) + [DigitChar(n % 10)]
  }

  /** The number denoted by a string of digits. */
  function ValueOf(s: string): nat
    requires forall i :: 0 <= i < |s| ==> IsDigit(s[i])
  {
    if s == [] then 0 else
      assert IsDigit(s[|s| - 1]);
      10 * ValueOf(s[..|s| - 1]) + (s[|s| - 1] as int - 48)
  }

  function Pow10(k: nat): nat {
    if k == 0 then 1 else 10 * Pow10(k - 1)
  }

  lemma Times10(x: nat, p: nat, v: nat, d: int)
    ensures 10 * (x * p + v) + d == x * (10 * p) + (10 * v + d)
  {
  }

  /** The digits of a number stand for powers of ten, the first for the highest. */
  lemma {:induction false} ValueJoin(a: string, b: string)
    requires forall i :: 0 <= i < |a| ==> IsDigit(a[i])
    requires forall i :: 0 <= i < |b| ==> IsDigit(b[i])
    ensures ValueOf(a + b) == ValueOf(a) * Pow10(|b|) + ValueOf(b)
    decreases |b|
  {
    if b == "" {
      assert a + b == a;
    } else {
      var r := b[..|b| - 1];
      assert (a + b)[..|a + b| - 1] == a + r;
      ValueJoin(a, r);
      Times10(ValueOf(a), Pow10(|r|), ValueOf(r), b[|r|] as int - 48);
    }
  }

  lemma ZeroDigit()
    ensures ValueOf("") == 0 && ValueOf("0") == 0
  {
    assert "0"[..0] == "";
  }

  /** No digits have the value 0, and leading zeros do not count. */
  lemma LeadingZero(s: string)
    requires forall i :: 0 <= i < |s| ==> IsDigit(s[i])
    ensures ValueOf("") == 0 && ValueOf("0" + s) == ValueOf(s)
  {
    ZeroDigit();
    hide ValueOf, Pow10;
    ValueJoin("0", s);
    assert 0 * Pow10(|s|) == 0;
  }

  /** Notation and value are inverse, the length is the digit count, and there is no leading zero. */
  lemma {:induction false} DigitsExact(n: nat)
    ensures var s := Digits(n);
      && (forall i :: 0 <= i < |s| ==> IsDigit(s[i]))
      && ValueOf(s) == n
      && (n > 0 ==> s[0] != '0' && Pow10(|s| - 1) <= n) && n < Pow10(|s|)
  {
    var s := Digits(n);
    DigitCharIs(n % 10);
    if n < 10 {
      assert s[..0] == "";
      assert n > 0 ==> s[0] != '0';
    } else {
      DigitsExact(n / 10);
      assert s[..|s| - 1] == Digits(n / 10);
    }
  }

  lemma {:induction false} Pow10Grows(a: nat, b: nat)
    requires a <= b
    ensures Pow10(a) <= Pow10(b)
  {
    if a < b { Pow10Grows(a, b - 1); }
  }

  lemma Uint32Digits(n: Uint32)
    ensures |Digits(n)| <= 10
  {
    DigitsExact(n);
    assert Pow10(5) == 100000;
    assert Pow10(10) == 100000 * Pow10(5);
    if |Digits(n)| > 10 {
      Pow10Grows(10, |Digits(n)| - 1);
    }
  }

  function Reversed(s: string): (r: string)
    ensures |r| == |s| && forall i :: 0 <= i < |s| ==> r[i] == s[|s| - 1 - i]
  {
    seq(|s|, i requires 0 <= i < |s| => s[|s| - 1 - i])
  }

  /** Copies `len` characters in reverse order. */
  method StringSwap(buffer: array<char>, msg: array<char>, len: nat)
    requires len <= buffer.Length && len <= msg.Length && buffer != msg
    modifies msg
    ensures msg[..len] == Reversed(buffer[..len]) && msg[len..] == old(msg[len..])
  {
    for i := 0 to len
      invariant forall k :: 0 <= k < i ==> msg[k] == buffer[len - 1 - k]
      invariant msg[len..] == old(msg[len..])
    {
      msg[i] := buffer[len - i - 1];
    }
  }

  /** Writes the decimal notation of any 32-bit number and a terminator; returns the digit count. */
  method LongToString(data: Uint32, s: array<char>) returns (n: nat)
    requires s.Length >= |Digits(data)| + 1
    modifies s
    ensures n == |Digits(data)| && s[..n] == Digits(data) && s[n] == '\0'
  {
    Uint32Digits(data);
    var buffer := new char[16](_ => '\0');
    var remain, index := data, 0;
    while remain >= 10
      invariant 0 <= remain && index + |Digits(remain)| == |Digits(data)| && index < 10
      invariant Digits(remain) + Reversed(buffer[..index]) == Digits(data)
    {
      var digit := remain % 10;
      ghost var low := buffer[..index];
      buffer[index] := DigitChar(digit);
      index := index + 1;
      remain := remain / 10;
      assert buffer[..index] == low + [DigitChar(digit)];
      assert Reversed(buffer[..index]) == [DigitChar(digit)] + Reversed(low);
    }
    ghost var low := buffer[..index];
    buffer[index] := DigitChar(remain);
    assert buffer[..index + 1] == low + [DigitChar(remain)];
    assert Reversed(buffer[..index + 1]) == [DigitChar(remain)] + Reversed(low);
    StringSwap(buffer, s, index + 1);
    s[index + 1] := '\0';
    n := index + 1;
  }

  /** The digits at the start of a C string. */
  function Prefix(s: seq<char>): (d: string)
    ensures |d| <= |s| && d == s[..|d|] && (forall i :: 0 <= i < |d| ==> IsDigit(d[i]))
    ensures |d| < |s| ==> !IsDigit(s[|d|])
  {
    if s == [] || !IsDigit(s[0]) then [] else [s[0]] + Prefix(s[1..])
  }

  /** The value of the leading digits.  The accumulator is an int, which that value must fit. */
  method Atoi(s: array<char>) returns (r: int)
    requires exists i :: 0 <= i < s.Length && s[i] == '\0'
    requires ValueOf(Prefix(s[..])) <= INT_MAX
    ensures r == ValueOf(Prefix(s[..])) && 0 <= r <= INT_MAX
  {
    ghost var d := Prefix(s[..]);
    var k := 0;
    r := 0;
    while IsDigit(s[k])
      invariant 0 <= k <= |d| && k < s.Length && r == ValueOf(d[..k])
      decreases |d| - k
    {
      assert s[k] == s[..][k];
      assert k < |d|;
      assert d[..k + 1][..k] == d[..k];
      r := r * 10;
      r := r + (s[k] as int - 48);
      k := k + 1;
    }
    assert s[k] == s[..][k];
    assert d[..k] == d;
  }

  lemma {:induction false} PrefixIs(s: seq<char>, d: string)
    requires |s| > |d| && s[..|d|] == d && !IsDigit(s[|d|]) && forall i :: 0 <= i < |d| ==> IsDigit(d[i])
    ensures Prefix(s) == d
  {
    if d != [] {
      assert s[0] == d[0];
      assert s[1..][..|d| - 1] == d[1..];
      PrefixIs(s[1..], d[1..]);
    }
  }

  /** The leading digits of a buffer that holds the notation of `n` have the value `n`, so `sm_atoi`
      stays within an int exactly when `n` does. */
  lemma PrintThenParse(n: Uint32, s: seq<char>)
    requires |s| > |Digits(n)| && s[..|Digits(n)|] == Digits(n) && s[|Digits(n)|] == '\0'
    ensures ValueOf(Prefix(s)) == n
  {
    DigitsExact(n);
    PrefixIs(s, Digits(n));
  }

  /** Printing then parsing in place returns the number. */
  method RoundTrip(n: Uint32, s: array<char>) returns (r: int)
    requires n <= 0x7FFF_FFFF && s.Length >= |Digits(n)| + 1
    modifies s
    ensures r == n
  {
    var len := LongToString(n, s);
    PrintThenParse(n, s[..]);
    r := Atoi(s);
  }
}
