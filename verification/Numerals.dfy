/** Decimal numerals as Go reads and prints them: `strconv.Atoi` and `fmt.Sprintf("%0*d", width, n)`. */
module Numerals {

  const MAX_INT := 0x7FFF_FFFF_FFFF_FFFF

  /** Adding one to an int: the largest is followed by the smallest. */
  function Increment(i: int): int {
    if i == MAX_INT then -MAX_INT - 1 else i + 1
  }

  predicate IsDigit(c: char) {
    '0' <= c <= '9'
  }

  predicate AllDigits(s: string) {
    forall i :: 0 <= i < |s| ==> IsDigit(s[i])
  }

  function DigitValue(c: char): nat {
    if IsDigit(c) then c as int - '0' as int else 0
  }

  function DigitChar(d: nat): (c: char)
    requires d < 10
    ensures IsDigit(c) && DigitValue(c) == d
  {
    ('0' as int + d) as char
  }

  /** The value of a string of digits. */
  function Val(s: string): nat {
    if s == "" then 0 else 10 * Val(s[..|s| - 1]) + DigitValue(s[|s| - 1])
  }

  /** Atoi: an optional plus sign and digits, saturating at the largest int; 0 for anything else.
      A minus sign does not occur: the program only calls it on what is left between dashes. */
  function Atoi(s: string): nat {
    var digits := if s != "" && s[0] == '+' then s[1..] else s;
    if digits == "" || !AllDigits(digits) then 0
    else if Val(digits) > MAX_INT then MAX_INT
    else Val(digits)
  }

  function Dec(n: nat): (s: string)
    ensures s != "" && AllDigits(s)
  {
    if n < 10 then [DigitChar(n)] else Dec(n / 10) + [DigitChar(n % 10)]
  }

  function Zeros(k: nat): (s: string)
    ensures |s| == k && AllDigits(s)
  {
    if k == 0 then "" else "0" + Zeros(k - 1)
  }

  /** `n` zero-padded to at least `w` characters. */
  function Pad(w: nat, n: nat): (s: string)
    ensures s != "" && AllDigits(s)
    ensures |s| == if |Dec(n)| < w then w else |Dec(n)|
  {
    if |Dec(n)| < w then Zeros(w - |Dec(n)|) + Dec(n) else Dec(n)
  }

  lemma {:induction false} ValOfDec(n: nat)
    ensures Val(Dec(n)) == n
  {
    if n >= 10 {
      ValOfDec(n / 10);
      assert Dec(n)[..|Dec(n)| - 1] == Dec(n / 10);
    }
  }

  lemma {:induction false} ValOfZeros(k: nat, s: string)
    ensures Val(Zeros(k) + s) == Val(s)
    decreases |s|, k
  {
    if s != "" {
      ValOfZeros(k, s[..|s| - 1]);
      assert (Zeros(k) + s)[..k + |s| - 1] == Zeros(k) + s[..|s| - 1];
    } else {
      AllZeros(k);
      assert Zeros(k) + s == Zeros(k);
    }
  }

  lemma {:induction false} AllZeros(k: nat)
    ensures Val(Zeros(k)) == 0 && forall i :: 0 <= i < k ==> Zeros(k)[i] == '0'
  {
    if k > 0 {
      AllZeros(k - 1);
      assert forall i :: 0 <= i < k ==> Zeros(k)[i] == '0';
      assert Zeros(k)[..k - 1] == Zeros(k - 1);
    }
  }

  lemma ValOfPad(w: nat, n: nat)
    ensures Val(Pad(w, n)) == n
  {
    ValOfDec(n);
    if |Dec(n)| < w { ValOfZeros(w - |Dec(n)|, Dec(n)); }
  }

  lemma ValSnoc(s: string, c: char)
    ensures Val(s + [c]) == 10 * Val(s) + DigitValue(c)
  {
    assert (s + [c])[..|s|] == s;
  }

  lemma DigitsApart(c: char, d: char)
    requires IsDigit(c) && IsDigit(d)
    ensures DigitValue(c) < 10 && (DigitValue(c) == DigitValue(d) ==> c == d)
  {}

  /** A string of digits is determined by its length and its value. */
  lemma {:induction false} SameLengthSameValue(a: string, b: string)
    requires AllDigits(a) && AllDigits(b) && |a| == |b| && Val(a) == Val(b)
    ensures a == b
  {
    hide Val, DigitValue;
    if a != "" {
      var x, c, y, d := a[..|a| - 1], a[|a| - 1], b[..|b| - 1], b[|b| - 1];
      assert a == x + [c] && b == y + [d];
      ValSnoc(x, c);
      ValSnoc(y, d);
      DigitsApart(c, d);
      DigitsApart(d, c);
      SameLengthSameValue(x, y);
    }
  }

  lemma {:induction false} DecLength(m: nat, n: nat)
    requires m <= n
    ensures |Dec(m)| <= |Dec(n)|
    decreases n
  {
    if n >= 10 && m >= 10 { DecLength(m / 10, n / 10); }
  }

  /** Digits cannot be fewer than the value needs. */
  lemma {:induction false} DecShortest(s: string)
    requires AllDigits(s) && s != ""
    ensures |Dec(Val(s))| <= |s|
  {
    if |s| > 1 {
      DecShortest(s[..|s| - 1]);
    }
  }

  lemma PadOfOwnValue(s: string)
    requires AllDigits(s) && s != ""
    ensures Pad(|s|, Val(s)) == s
  {
    DecShortest(s);
    ValOfPad(|s|, Val(s));
    SameLengthSameValue(Pad(|s|, Val(s)), s);
  }

  /** Padding to the width of a smaller padded number is padding to the original width. */
  lemma PadChain(w: nat, m: nat, n: nat)
    requires m <= n
    ensures Pad(|Pad(w, m)|, n) == Pad(w, n)
  {
    DecLength(m, n);
  }
}
