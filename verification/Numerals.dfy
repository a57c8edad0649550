/** Unsigned numbers as text, in base ten or sixteen, and two's-complement views of 64-bit words. */
module Numerals {
  import opened Common

  datatype Radix = Dec | Hex

  type U64 = n: int | 0 <= n < TWO_TO_THE_64
  type U32 = n: int | 0 <= n < 0x1_0000_0000
  type I64 = n: int | -TWO_TO_THE_63 <= n < TWO_TO_THE_63

  predicate IsDigit(c: char, r: Radix)
  {
    '0' <= c <= '9' || (r.Hex? && ('a' <= c <= 'f' || 'A' <= c <= 'F'))
  }

  predicate AllDigits(text: string, r: Radix)
  {
    forall i :: 0 <= i < |text| ==> IsDigit(text[i], r)
  }

  function DigitValue(c: char): (d: nat)
    requires IsDigit(c, Hex)
    ensures d < 16
  {
    if c <= '9' then c as int - '0' as int
    else if c <= 'F' then c as int - 'A' as int + 10
    else c as int - 'a' as int + 10
  }

  function DigitChar(d: nat): (c: char)
    requires d < 16
    ensures IsDigit(c, if d < 10 then Dec else Hex) && DigitValue(c) == d
  {
    if d < 10 then '0' + d as char else 'a' + (d - 10) as char
  }

  function Over(n: nat, r: Radix): nat { if r.Dec? then n / 10 else n / 16 }

  function Last(n: nat, r: Radix): nat { if r.Dec? then n % 10 else n % 16 }

  function Times(n: nat, r: Radix): nat { if r.Dec? then n * 10 else n * 16 }

  /** The digits of a number, most significant first, without leading zeros. */
  function Print(n: nat, r: Radix): string
    decreases n
  {
    if Over(n, r) == 0 then [DigitChar(Last(n, r))] else Print(Over(n, r), r) + [DigitChar(Last(n, r))]
  }

  function Value(text: string, r: Radix): nat
    requires AllDigits(text, r)
  {
    if text == "" then 0 else Times(Value(text[..|text| - 1], r), r) + DigitValue(text[|text| - 1])
  }

  lemma {:induction false} PrintReadsBack(n: nat, r: Radix)
    ensures Print(n, r) != "" && AllDigits(Print(n, r), r) && Value(Print(n, r), r) == n
    decreases n
  {
    if Over(n, r) != 0 {
      PrintReadsBack(Over(n, r), r);
      assert Print(n, r)[..|Print(n, r)| - 1] == Print(Over(n, r), r);
    } else {
      assert Print(n, r)[..0] == "";
    }
  }

  function Power(r: Radix, k: nat): nat { if k == 0 then 1 else Times(Power(r, k - 1), r) }

  lemma {:induction false} PrintIsShort(n: nat, r: Radix, k: nat)
    requires 0 < k && n < Power(r, k)
    ensures |Print(n, r)| <= k
    decreases k
  {
    assert Power(r, 1) == Times(1, r);
    if k > 1 && Over(n, r) != 0 { PrintIsShort(Over(n, r), r, k - 1); }
  }

  lemma TwentyDigitsHold()
    ensures Power(Dec, 20) == 100_000_000_000_000_000_000 && Power(Hex, 20) >= TWO_TO_THE_64
  {
    assert Power(Dec, 10) == 10_000_000_000;
    assert Power(Hex, 10) == 0x100_0000_0000;
  }

  /** At most twenty digits and nothing else, and no more than 64 bits. */
  function ParseUnsigned(text: string, r: Radix): Option<U64>
  {
    if text == "" || |text| > 20 || !AllDigits(text, r) then None
    else if Value(text, r) < TWO_TO_THE_64 then Some(Value(text, r)) else None
  }

  lemma ParsePrinted(n: U64, r: Radix)
    ensures ParseUnsigned(Print(n, r), r) == Some(n)
  {
    TwentyDigitsHold();
    PrintReadsBack(n, r);
    PrintIsShort(n, r, 20);
  }

  /** The unsigned bit pattern of a signed word, and back. */
  function Pattern(i: I64): U64 { if i < 0 then i + TWO_TO_THE_64 else i }

  function Signed(u: U64): I64 { if u < TWO_TO_THE_63 then u else u - TWO_TO_THE_64 }

  lemma PatternsPairUp(i: I64, u: U64)
    ensures Signed(Pattern(i)) == i && Pattern(Signed(u)) == u
  {
  }
}
