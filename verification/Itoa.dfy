/** Numbers to text, in place in the caller's buffer. */
module Itoa {
  import opened Machine

  const DIGITS: string := "0123456789ABCDEF"

  predicate ValidBase(base: int) {
    2 <= base <= 16
  }

  function Rest(n: nat, base: int): (q: nat)
    requires ValidBase(base)
    ensures n > 0 ==> q < n
    ensures n < base <==> q == 0
  {
    n / base
  }

  function LastDigit(n: nat, base: int): (d: nat)
    requires ValidBase(base)
    ensures d < base && n == Rest(n, base) * base + d
  {
    n % base
  }

  /** The digits of n, least significant first. */
  function Digits(n: nat, base: int): (s: string)
    requires ValidBase(base)
    ensures |s| >= 1
  {
    [DIGITS[LastDigit(n, base)]] + if Rest(n, base) == 0 then [] else Digits(Rest(n, base), base)
  }

  function Reversed<T>(s: seq<T>): (r: seq<T>)
    ensures |r| == |s| && forall k :: 0 <= k < |s| ==> r[k] == s[|s| - 1 - k]
  {
    if s == [] then [] else Reversed(s[1..]) + [s[0]]
  }

  /** The number as it is written, most significant digit first. */
  function Text(n: nat, base: int): string
    requires ValidBase(base)
  {
    Reversed(Digits(n, base))
  }

  /** Reading a digit back; -1 for anything else. */
  function DigitValue(c: char): int {
    if '0' <= c <= '9' then c as int - '0' as int
    else if 'A' <= c <= 'F' then c as int - 'A' as int + 10
    else -1
  }

  /** The number a text stands for. */
  function Value(s: string, base: int): int {
    if s == [] then 0 else Value(s[..|s| - 1], base) * base + DigitValue(s[|s| - 1])
  }

  function Pow(base: int, n: nat): int {
    if n == 0 then 1 else base * Pow(base, n - 1)
  }

  lemma DigitRoundTrip(d: nat)
    requires d < 16
    ensures DigitValue(DIGITS[d]) == d
  {
    assert DIGITS == ['0', '1', '2', '3', '4', '5', '6', '7', '8', '9', 'A', 'B', 'C', 'D', 'E', 'F'];
  }

  lemma ValueAppend(s: string, c: char, base: int)
    ensures Value(s + [c], base) == Value(s, base) * base + DigitValue(c)
  {
    assert (s + [c])[..|s|] == s;
  }

  lemma TextStep(n: nat, base: int)
    requires ValidBase(base)
    ensures Text(n, base)
      == (if Rest(n, base) == 0 then [] else Text(Rest(n, base), base)) + [DIGITS[LastDigit(n, base)]]
  {
    assert Digits(n, base)[1..] == if Rest(n, base) == 0 then [] else Digits(Rest(n, base), base);
  }

  /** The text of a number reads back as that number. */
  lemma {:induction false} TextReadsBack(n: nat, base: int)
    requires ValidBase(base)
    ensures Value(Text(n, base), base) == n
    decreases n
  {
    var q, d := Rest(n, base), LastDigit(n, base);
    hide Rest, LastDigit, Digits;
    DigitRoundTrip(d);
    TextStep(n, base);
    var front := if q == 0 then [] else Text(q, base);
    ValueAppend(front, DIGITS[d], base);
    if q != 0 {
      TextReadsBack(q, base);
    }
  }

  /** Different numbers have different texts. */
  lemma TextInjective(m: nat, n: nat, base: int)
    requires ValidBase(base) && Text(m, base) == Text(n, base)
    ensures m == n
  {
    TextReadsBack(m, base);
    TextReadsBack(n, base);
  }

  lemma {:induction false} LastDigitNotZero(n: nat, base: int)
    requires ValidBase(base) && n > 0
    ensures var s := Digits(n, base); s[|s| - 1] != '0'
    decreases n
  {
    var q := Rest(n, base);
    hide Rest, LastDigit;
    DigitRoundTrip(LastDigit(n, base));
    if q != 0 {
      LastDigitNotZero(q, base);
    }
  }

  /** Only zero starts with a zero. */
  lemma NoLeadingZero(n: nat, base: int)
    requires ValidBase(base)
    ensures Text(n, base)[0] == '0' <==> n == 0
    ensures n == 0 ==> Text(n, base) == "0"
  {
    if n > 0 {
      LastDigitNotZero(n, base);
    }
  }

  /** The text has at most k digits exactly when the number is below base to the k. */
  lemma {:induction false} LengthIff(n: nat, base: int, k: nat)
    requires ValidBase(base) && k > 0
    ensures |Text(n, base)| <= k <==> n < Pow(base, k)
    decreases k
  {
    if n < base {
      PowGrows(base, k);
    } else if k == 1 {
      assert Pow(base, 1) == base;
    } else {
      LengthIff(Rest(n, base), base, k - 1);
      DivBelow(n, base, Pow(base, k - 1));
    }
  }

  lemma {:induction false} PowGrows(base: int, k: nat)
    requires base >= 2 && k > 0
    ensures Pow(base, k) >= base
    decreases k
  {
    if k > 1 {
      PowGrows(base, k - 1);
    }
  }

  lemma DivBelow(n: nat, base: int, p: int)
    requires base > 0
    ensures n / base < p <==> n < base * p
  {
    var q := n / base;
    assert n == base * q + n % base;
    if q < p {
      assert base * (q + 1) <= base * p;
    } else {
      assert base * p <= base * q;
    }
  }

  /** The buffers of debug_hex and debug_dec hold every u64 with its terminator. */
  lemma DebugBuffersSuffice(n: U64)
    ensures |Text(n, 16)| + 1 <= 17 && |Text(n, 10)| + 1 <= 21
  {
    HexCapacity();
    DecimalCapacity();
    hide Pow, Text;
    LengthIff(n, 16, 16);
    LengthIff(n, 10, 20);
  }

  lemma HexCapacity()
    ensures Pow(16, 16) == TWO_TO_64
  {
    assert Pow(16, 1) == 16;
    PowSquares(16, 1);
    PowSquares(16, 2);
    PowSquares(16, 4);
    PowSquares(16, 8);
  }

  lemma DecimalCapacity()
    ensures Pow(10, 20) > TWO_TO_64
  {
    assert Pow(10, 1) == 10;
    PowSquares(10, 1);
    PowAdds(10, 4, 1);
    PowSquares(10, 2);
    PowSquares(10, 5);
    PowSquares(10, 10);
  }

  lemma PowSquares(base: int, k: nat)
    ensures Pow(base, 2 * k) == Pow(base, k) * Pow(base, k)
  {
    PowAdds(base, k, k);
  }

  lemma {:induction false} PowAdds(base: int, j: nat, k: nat)
    ensures Pow(base, j + k) == Pow(base, j) * Pow(base, k)
  {
    if j > 0 {
      PowAdds(base, j - 1, k);
      assert Pow(base, j + k) == base * Pow(base, (j - 1) + k);
    }
  }

  /** itoa: writes the digits behind a zero byte, least significant first, and then turns the whole around. */
  method ToText(n: U64, buf: array<char>, base: nat)
    requires ValidBase(base) && |Text(n, base)| < buf.Length
    modifies buf
    ensures buf[..] == Text(n, base) + ['\0'] + old(buf[..])[|Text(n, base)| + 1..]
  {
    if n == 0 {
      buf[0] := '0';
      buf[1] := '\0';
      assert Text(n, base) == "0";
      return;
    }
    ghost var s := Digits(n, base);
    var end := WriteDigits(n, buf, base);
    ghost var written := buf[..];
    assert written[0..end] == ['\0'] + s;
    assert written[end..] == old(buf[..])[end..];
    ReversedBehind('\0', s);
    hide Digits, Reversed;
    Flip(buf, 0, end);
  }

  /** The digit loop of itoa; `end` is one past the last digit written. */
  method WriteDigits(n: U64, buf: array<char>, base: nat) returns (end: nat)
    requires n > 0 && ValidBase(base) && |Digits(n, base)| < buf.Length
    modifies buf
    ensures end == |Digits(n, base)| + 1 && buf[0] == '\0'
    ensures forall k :: 1 <= k < end ==> buf[k] == Digits(n, base)[k - 1]
    ensures forall k :: end <= k < buf.Length ==> buf[k] == old(buf[k])
  {
    hide Rest, LastDigit;
    ghost var s := Digits(n, base);
    buf[0] := '\0';
    end := 1;
    var i: nat := n;
    while true
      invariant i > 0 && 1 <= end <= |s| && s[end - 1..] == Digits(i, base)
      invariant buf[0] == '\0' && forall k :: 1 <= k < end ==> buf[k] == s[k - 1]
      invariant forall k :: end <= k < buf.Length ==> buf[k] == old(buf[k])
      decreases i
    {
      var rest, digit := Divide(i, base);
      assert s[end - 1] == s[end - 1..][0] == DIGITS[digit];
      assert s[end - 1..][1..] == s[end..];
      buf[end] := DIGITS[digit];
      i := rest;
      end := end + 1;
      if i == 0 {
        break;
      }
    }
  }

  /** One division of the loop: the quotient, and the remainder as what multiplying back leaves over. */
  method Divide(i: nat, base: nat) returns (rest: nat, digit: nat)
    requires ValidBase(base)
    ensures rest == Rest(i, base) && digit == LastDigit(i, base)
  {
    rest := i / base;
    digit := i - rest * base;
  }

  lemma ReversedBehind(c: char, s: string)
    ensures Reversed([c] + s) == Reversed(s) + [c]
  {
    assert ([c] + s)[1..] == s;
  }

  /** Turns buf[lo..hi] around. */
  method Flip(buf: array<char>, lo: nat, hi: nat)
    requires lo <= hi <= buf.Length
    modifies buf
    ensures buf[..] == old(buf[..])[..lo] + Reversed(old(buf[..])[lo..hi]) + old(buf[..])[hi..]
  {
    var a, b := lo, hi;
    while a < b
      invariant lo <= a <= hi && lo <= b <= hi && a + b == lo + hi
      invariant forall k :: 0 <= k < buf.Length && !(lo <= k < a) && !(b <= k < hi) ==> buf[k] == old(buf[k])
      invariant forall k :: lo <= k < a ==> buf[k] == old(buf[lo + hi - 1 - k])
      invariant forall k :: b <= k < hi ==> buf[k] == old(buf[lo + hi - 1 - k])
      decreases b - a
    {
      b := b - 1;
      var reserve := buf[a];
      buf[a] := buf[b];
      buf[b] := reserve;
      a := a + 1;
    }
    FlippedIs(old(buf[..]), buf[..], lo, hi);
  }

  lemma FlippedIs(was: seq<char>, now: seq<char>, lo: nat, hi: nat)
    requires lo <= hi <= |was| == |now|
    requires forall k :: 0 <= k < |was| && !(lo <= k < hi) ==> now[k] == was[k]
    requires forall k :: lo <= k < hi ==> now[k] == was[lo + hi - 1 - k]
    ensures now == was[..lo] + Reversed(was[lo..hi]) + was[hi..]
  {
    var middle := Reversed(was[lo..hi]);
    assert now[lo..hi] == middle;
    assert now[..lo] == was[..lo];
    assert now[hi..] == was[hi..];
    assert now == now[..lo] + now[lo..hi] + now[hi..];
  }
}
