/** Printing numbers in a base (lib/string.c, itoa and reverse). */
module Itoa {
  import opened Machine
  import opened Strings

  /** The character of a digit: 0-9, then A-Z. */
  function DigitChar(d: nat): byte
    requires d < 36
  {
    if d < 10 then d + 48 else d - 10 + 65
  }

  const DIGITS: string := "0123456789ABCDEFGHIJKLMNOPQRSTUVWXYZ"

  /** The digit that a character stands for; other characters count as 0. */
  function DigitValue(c: byte): nat {
    if 48 <= c <= 57 then c - 48 else if 65 <= c <= 90 then c - 55 else 0
  }

  /** The number that `text` denotes in base `base`. */
  function ValueOf(text: Bytes, base: nat): nat {
    if text == [] then 0 else ValueOf(text[..|text| - 1], base) * base + DigitValue(text[|text| - 1])
  }

  function Quo(value: nat, base: nat): nat
    requires base > 0
  {
    value / base
  }

  function Rem(value: nat, base: nat): nat
    requires base > 0
  {
    value % base
  }

  lemma DivMod(value: nat, base: nat)
    requires 2 <= base
    ensures value == Quo(value, base) * base + Rem(value, base) && Rem(value, base) < base
    ensures Quo(value, base) == 0 ==> Rem(value, base) == value
    ensures value > 0 ==> Quo(value, base) < value
  {
    hide Quo, Rem;
    var q, r := Quo(value, base), Rem(value, base);
    DivModOf(value, base);
    TwiceAtMost(q, base);
  }

  lemma DivModOf(value: nat, base: nat)
    requires 2 <= base
    ensures value == Quo(value, base) * base + Rem(value, base) && Rem(value, base) < base
  {
  }

  lemma TwiceAtMost(q: nat, base: nat)
    requires 2 <= base
    ensures 2 * q <= q * base
  {
  }

  lemma DigitReadsBack(d: nat)
    requires d < 36
    ensures DigitValue(DigitChar(d)) == d && DigitChar(d) == DIGITS[d] as int
    ensures DigitChar(d) == 48 <==> d == 0
  {
  }

  /** The digits of `value`, least significant first. */
  function LowFirst(value: nat, base: nat): (d: Bytes)
    requires 2 <= base <= 36
    ensures d != []
    decreases value
  {
    DivMod(value, base);
    [DigitChar(Rem(value, base))] + if Quo(value, base) > 0 then LowFirst(Quo(value, base), base) else []
  }

  lemma LowFirstStep(value: nat, base: nat)
    requires 2 <= base <= 36
    ensures Rem(value, base) < base
    ensures LowFirst(value, base)
            == [DigitChar(Rem(value, base))] + if Quo(value, base) > 0 then LowFirst(Quo(value, base), base) else []
    ensures |LowFirst(value, base)| == 1 + if Quo(value, base) > 0 then |LowFirst(Quo(value, base), base)| else 0
  {
    hide Quo, Rem;
    DivMod(value, base);
  }

  function Reversed(s: Bytes): (r: Bytes)
    ensures |r| == |s|
  {
    if s == [] then [] else Reversed(s[1..]) + [s[0]]
  }

  lemma {:induction false} ReversedAt(s: Bytes, k: nat)
    requires k < |s|
    ensures Reversed(s)[k] == s[|s| - 1 - k]
  {
    if k < |s| - 1 {
      ReversedAt(s[1..], k);
    }
  }

  /** What itoa prints for a value. */
  function Text(value: nat, base: nat): Bytes
    requires 2 <= base <= 36
  {
    Reversed(LowFirst(value, base))
  }

  /** Reading the printed digits back gives the value. */
  lemma {:induction false} TextRoundTrip(value: nat, base: nat)
    requires 2 <= base <= 36
    ensures ValueOf(Text(value, base), base) == value
    decreases value
  {
    hide Quo, Rem, DigitChar, DigitValue;
    var d, t := LowFirst(value, base), Text(value, base);
    var q, r := Quo(value, base), Rem(value, base);
    DivMod(value, base);
    LowFirstStep(value, base);
    DigitReadsBack(r);
    assert t[..|t| - 1] == Reversed(d[1..]) && t[|t| - 1] == d[0];
    if q > 0 {
      assert d[1..] == LowFirst(q, base);
      TextRoundTrip(q, base);
    } else {
      assert d[1..] == [];
    }
  }

  /** No leading zero, except for the single digit of 0 itself. */
  lemma {:induction false} NoLeadingZero(value: nat, base: nat)
    requires 2 <= base <= 36
    ensures Text(value, base)[0] == 48 ==> value == 0 && Text(value, base) == [48]
    decreases value
  {
    hide Quo, Rem, DigitChar;
    var d := LowFirst(value, base);
    var q := Quo(value, base);
    DivMod(value, base);
    LowFirstStep(value, base);
    DigitReadsBack(Rem(value, base));
    if q > 0 {
      assert d[1..] == LowFirst(q, base);
      NoLeadingZero(q, base);
      assert Text(value, base)[0] == Text(q, base)[0];
    } else {
      assert d[1..] == [] && Text(value, base) == [d[0]];
    }
  }

  function Power(base: nat, n: nat): nat {
    if n == 0 then 1 else base * Power(base, n - 1)
  }

  /** A value below 10^n has at most n digits in base 10 and above. */
  lemma {:induction false} TextLength(value: nat, base: nat, n: nat)
    requires 10 <= base <= 36 && n > 0 && value < Power(10, n)
    ensures |Text(value, base)| <= n
    decreases value
  {
    hide Quo, Rem, DigitChar;
    var q := Quo(value, base);
    DivMod(value, base);
    LowFirstStep(value, base);
    if q > 0 {
      var p := Power(10, n - 1);
      assert value < 10 * p;
      TenTimes(value, base, q);
      assert p > 1;
      assert n > 1;
      TextLength(q, base, n - 1);
    }
  }

  lemma TenTimes(value: nat, base: nat, q: nat)
    requires value >= q * base && base >= 10
    ensures 10 * q <= value
  {
    assert q * base >= q * 10;
  }

  lemma PowerTen20()
    ensures Power(10, 20) == 100_000_000_000_000_000_000
  {
    assert Power(10, 5) == 100_000;
    assert Power(10, 10) == 10_000_000_000;
    assert Power(10, 15) == 1_000_000_000_000_000;
  }

  /** A 64-bit value takes at most 20 characters in base 10 and above. */
  lemma TextFits(value: nat, base: nat)
    requires value < TWO64 && 10 <= base <= 36
    ensures |Text(value, base)| <= 20
  {
    PowerTen20();
    TextLength(value, base, 20);
  }

  /** Reverse the first `len` bytes in place. */
  method Reverse(str: array<byte>, len: nat)
    requires 0 < len <= str.Length
    modifies str
    ensures str[..len] == Reversed(old(str[..len])) && str[len..] == old(str[len..])
  {
    var i, j := 0, len - 1;
    while i < j
      invariant 0 <= i <= len && i + j == len - 1 && j >= -1
      invariant forall k | 0 <= k < i || j < k < len :: str[k] == old(str[len - 1 - k])
      invariant forall k | i <= k <= j || len <= k < str.Length :: str[k] == old(str[k])
    {
      str[i], str[j] := str[j], str[i];
      i := i + 1;
      j := j - 1;
    }
    ghost var was := old(str[..len]);
    forall k | 0 <= k < len
      ensures str[k] == Reversed(was)[k]
    {
      ReversedAt(was, k);
      assert was[len - 1 - k] == old(str[len - 1 - k]);
    }
  }

  /** Print `value` into `str`, which has room for it and the final 0. */
  method Itoa(value: nat, str: array<byte>, base: nat)
    requires value < TWO64 && 2 <= base <= 36
    requires |Text(value, base)| < str.Length
    modifies str
    ensures CStr(str[..], 0) == Text(value, base)
    ensures ValueOf(CStr(str[..], 0), base) == value
  {
    hide Quo, Rem, DigitChar, LowFirst, ValueOf, Reversed;
    ghost var all := LowFirst(value, base);
    var i := 0;
    var v := value;
    var more := true;
    while more
      invariant i <= |all| && str[..i] <= all
      invariant more ==> i < |all| && all[i..] == LowFirst(v, base)
      invariant !more ==> i == |all|
      decreases |all| - i, more
    {
      LowFirstStep(v, base);
      var remainder := Rem(v, base);
      assert all[i] == all[i..][0] && all[i..][1..] == all[i + 1..];
      str[i] := DigitChar(remainder);
      i := i + 1;
      v := Quo(v, base);
      more := v > 0;
    }
    str[i] := 0;
    assert str[..i] == all && str[i..][0] == 0;
    Reverse(str, i);
    TextRoundTrip(value, base);
    TextHasNoZero(value, base);
    assert str[..i] == Text(value, base);
    assert str[..] == str[..i] + str[i..];
    CStrReadsBack(Text(value, base), str[i..]);
  }

  lemma {:induction false} ReversedFree(s: Bytes)
    requires 0 !in s
    ensures 0 !in Reversed(s)
  {
    if s != [] {
      ReversedFree(s[1..]);
    }
  }

  lemma {:induction false} LowFirstFree(value: nat, base: nat)
    requires 2 <= base <= 36
    ensures 0 !in LowFirst(value, base)
    decreases value
  {
    hide Quo, Rem;
    DivMod(value, base);
    LowFirstStep(value, base);
    if Quo(value, base) > 0 {
      LowFirstFree(Quo(value, base), base);
    }
  }

  lemma TextHasNoZero(value: nat, base: nat)
    requires 2 <= base <= 36
    ensures 0 !in Text(value, base)
  {
    LowFirstFree(value, base);
    ReversedFree(LowFirst(value, base));
  }
}
