/** Digit strings of non-negative integers, as Python's `%s` (decimal) and
    `%02X` (upper-case hexadecimal, at least two digits) render them, and the
    reading of such strings back into numbers. */
module Numerals {
  import opened Cursor

  /** The two radixes the replay code prints in. Multiplication and division by
      the radix are written per case, so every proof about them stays linear. */
  datatype Radix = Ten | Sixteen {
    function Size(): nat { if Ten? then 10 else 16 }
    function Times(v: nat): nat { if Ten? then v * 10 else v * 16 }
    function Quot(n: nat): nat { if Ten? then n / 10 else n / 16 }
    function Rem(n: nat): nat { if Ten? then n % 10 else n % 16 }
  }

  /** Division by the radix undone: n == Quot(n) * radix + Rem(n), Rem(n) < radix. */
  lemma DivMod(n: nat, r: Radix)
    ensures r.Times(r.Quot(n)) + r.Rem(n) == n && r.Rem(n) < r.Size()
    ensures n >= r.Size() ==> 0 < r.Quot(n) < n
  {
  }

  /** The character of digit `d`: `0`-`9`, then `A`-`F`. */
  function DigitChar(d: nat): char
    requires d < 16
  {
    if d < 10 then (48 + d) as char else (65 + d - 10) as char
  }

  /** `c` is a digit of radix `r`. */
  predicate IsDigit(c: char, r: Radix) {
    || ('0' <= c <= '9' && (c as int) - 48 < r.Size())
    || ('A' <= c <= 'F' && (c as int) - 65 + 10 < r.Size())
  }

  /** The digit a character stands for (0 for a character that is none). */
  function DigitValue(c: char, r: Radix): (d: nat)
    ensures IsDigit(c, r) ==> d < r.Size() && DigitChar(d) == c
  {
    if '0' <= c <= '9' then (c as int) - 48
    else if 'A' <= c <= 'F' then (c as int) - 65 + 10
    else 0
  }

  predicate AllDigits(s: string, r: Radix) {
    forall i | 0 <= i < |s| :: IsDigit(s[i], r)
  }

  /** The number a digit string stands for, most significant digit first. */
  function NumeralValue(s: string, r: Radix): nat {
    if |s| == 0 then 0
    else r.Times(NumeralValue(s[..|s| - 1], r)) + DigitValue(s[|s| - 1], r)
  }

  /** The digits of `n`, most significant first, without leading zeros. */
  function Numeral(n: nat, r: Radix): (s: string)
    ensures |s| >= 1
    ensures n < r.Size() <==> |s| == 1
    decreases n
  {
    DivMod(n, r);
    if n < r.Size() then [DigitChar(n)] else Numeral(r.Quot(n), r) + [DigitChar(r.Rem(n))]
  }

  /** The rendering of `n` consists of digits of the radix only. */
  lemma {:induction false} NumeralDigits(n: nat, r: Radix)
    ensures AllDigits(Numeral(n, r), r)
    decreases n
  {
    DivMod(n, r);
    if n >= r.Size() {
      NumeralDigits(r.Quot(n), r);
    }
  }

  /** Round trip: the digits of `n` read back as `n`. */
  lemma {:induction false} NumeralRoundTrip(n: nat, r: Radix)
    ensures NumeralValue(Numeral(n, r), r) == n
    decreases n
  {
    var s := Numeral(n, r);
    DivMod(n, r);
    if n < r.Size() {
      assert s[..0] == [];
      assert DigitValue(DigitChar(n), r) == n;
    } else {
      NumeralStep(n, r);
      NumeralRoundTrip(r.Quot(n), r);
    }
  }

  /** Reading the digits of `n` is reading those of `n / radix`, then one more. */
  lemma NumeralStep(n: nat, r: Radix)
    requires n >= r.Size()
    ensures NumeralValue(Numeral(n, r), r)
         == r.Times(NumeralValue(Numeral(r.Quot(n), r), r)) + r.Rem(n)
  {
    DivMod(n, r);
    var s := Numeral(n, r);
    assert s[..|s| - 1] == Numeral(r.Quot(n), r);
    assert DigitValue(DigitChar(r.Rem(n)), r) == r.Rem(n);
  }

  /** Python's `'%s' % n` for a non-negative integer. */
  function Decimal(n: nat): string {
    Numeral(n, Ten)
  }

  /** Python's `'%02X' % n`: upper-case hexadecimal, zero-padded to two digits;
      larger values keep all their digits. */
  function Hex2(n: nat): (s: string)
    ensures |s| >= 2
    ensures n < 256 <==> |s| == 2
  {
    if n < 16 then "0" + Numeral(n, Sixteen) else Numeral(n, Sixteen)
  }

  /** `%02X` of a byte is its two hexadecimal digits, high one first. */
  lemma Hex2Digits(n: nat)
    requires n < 256
    ensures Hex2(n) == [DigitChar(n / 16), DigitChar(n % 16)]
  {
    DivMod(n, Sixteen);
    if n >= 16 {
      assert Numeral(n / 16, Sixteen) == [DigitChar(n / 16)];
    }
  }

  /** Round trip: `%02X` of `n` reads back as `n`, padding included. */
  lemma Hex2RoundTrip(n: nat)
    ensures NumeralValue(Hex2(n), Sixteen) == n
  {
    NumeralRoundTrip(n, Sixteen);
    if n < 16 {
      var s := Hex2(n);
      assert s[..1] == "0" && s[..1][..0] == [];
      assert NumeralValue(s, Sixteen) == Sixteen.Times(NumeralValue("0", Sixteen)) + DigitValue(s[1], Sixteen);
    }
  }

  /** Length of the run of decimal digits at the front of `s`. */
  function DigitRun(s: string): (k: nat)
    ensures k <= |s|
  {
    if |s| == 0 || !IsDigit(s[0], Ten) then 0 else 1 + DigitRun(s[1..])
  }

  /** Reads the decimal number at the front of `s`: its value and the text after it. */
  function ReadNumber(s: string): Option<(nat, string)> {
    var k := DigitRun(s);
    if k == 0 then None else Some((NumeralValue(s[..k], Ten), s[k..]))
  }

  /** The run of digits of `ds + rest` is exactly `ds` when `rest` starts with
      something else. */
  lemma {:induction false} DigitRunOf(ds: string, rest: string)
    requires AllDigits(ds, Ten)
    requires rest == [] || !IsDigit(rest[0], Ten)
    ensures DigitRun(ds + rest) == |ds|
  {
    if |ds| > 0 {
      assert (ds + rest)[1..] == ds[1..] + rest;
      DigitRunOf(ds[1..], rest);
    } else {
      assert ds + rest == rest;
    }
  }

  /** Round trip: the decimal rendering of `n`, followed by anything that does not
      start with a digit, reads back as `n` and leaves exactly that text. */
  lemma ReadDecimal(n: nat, rest: string)
    requires rest == [] || !IsDigit(rest[0], Ten)
    ensures ReadNumber(Decimal(n) + rest) == Some((n, rest))
  {
    var s := Decimal(n) + rest;
    NumeralRoundTrip(n, Ten);
    NumeralDigits(n, Ten);
    DigitRunOf(Decimal(n), rest);
    assert s[..|Decimal(n)|] == Decimal(n);
    assert s[|Decimal(n)|..] == rest;
  }
}
