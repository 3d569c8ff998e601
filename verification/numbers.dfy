/** Reading a number word the way `strtoll(word, &end, 10)` does, and the
    `(int)` narrowing applied to the result. */
module Numbers {
  import opened Chars

  /** The range of a 64-bit `long long`. */
  const LLONG_MIN: int := -0x8000_0000_0000_0000
  const LLONG_MAX: int := 0x7FFF_FFFF_FFFF_FFFF

  /** The range of a 32-bit `int`. */
  const INT_MIN: int := -0x8000_0000
  const INT_MAX: int := 0x7FFF_FFFF

  /** Length of the leading run of digits of `s`. */
  function DigitRun(s: string): (n: nat)
    ensures n <= |s|
    ensures forall i :: 0 <= i < n ==> IsDigit(s[i])
    ensures n == |s| || !IsDigit(s[n])
  {
    if s == [] || !IsDigit(s[0]) then 0 else 1 + DigitRun(s[1..])
  }

  /** The value of one digit. */
  function DigitValue(c: char): (d: nat)
    requires IsDigit(c)
    ensures d < 10
  {
    (c as int) - ('0' as int)
  }

  /** The digit character for a value below ten. */
  function DigitChar(d: nat): (c: char)
    requires d < 10
    ensures IsDigit(c) && DigitValue(c) == d
  {
    ((d + '0' as int) as char)
  }

  /** The value of a string of decimal digits, most significant first. */
  function DecimalValue(ds: string): nat
    requires forall i :: 0 <= i < |ds| ==> IsDigit(ds[i])
  {
    if ds == [] then 0 else 10 * DecimalValue(ds[..|ds| - 1]) + DigitValue(ds[|ds| - 1])
  }

  /** The decimal rendering of a natural number, without leading zeros. */
  function Decimal(n: nat): (s: string)
    ensures |s| > 0 && forall i :: 0 <= i < |s| ==> IsDigit(s[i])
  {
    (if n < 10 then [] else Decimal(n / 10)) + [DigitChar(n % 10)]
  }

  /** Reading back a rendering gives the number. */
  lemma {:induction false} DecimalValueOfDecimal(n: nat)
    ensures DecimalValue(Decimal(n)) == n
  {
    var s := Decimal(n);
    assert s[..|s| - 1] == if n < 10 then [] else Decimal(n / 10);
    if n >= 10 {
      DecimalValueOfDecimal(n / 10);
    }
  }

  /** The outcome of `strtoll`: the value returned, how many characters of
      the word were consumed (`end - word`; zero when no conversion was
      performed), and whether `errno` was set to ERANGE. */
  datatype Conversion = Conversion(value: int, consumed: nat, overflow: bool)

  /** `strtoll(word, &end, 10)`: optional leading whitespace, an optional
      sign, then as many digits as follow. Without a digit nothing is
      converted; a value outside the `long long` range saturates and flags
      overflow; characters after the digits are left unread. */
  function StrToLL(w: string): (c: Conversion)
    ensures c.consumed <= |w|
    ensures LLONG_MIN <= c.value <= LLONG_MAX
    ensures c.consumed == 0 ==> c.value == 0 && !c.overflow
    ensures c.consumed > 0 ==> IsDigit(w[c.consumed - 1]) && (c.consumed == |w| || !IsDigit(w[c.consumed]))
  {
    var j := NumberStart(w);
    var d := DigitRun(w[j..]);
    DigitRunAt(w, j);
    if d == 0 then Conversion(0, 0, false)
    else
      var magnitude: int := DecimalValue(Span(w, j, d));
      var v := if Negative(w) then -magnitude else magnitude;
      if v > LLONG_MAX then Conversion(LLONG_MAX, j + d, true)
      else if v < LLONG_MIN then Conversion(LLONG_MIN, j + d, true)
      else Conversion(v, j + d, false)
  }

  /** The index just past the leading whitespace and the optional sign. */
  function NumberStart(w: string): (j: nat)
    ensures j <= |w|
  {
    var i := |w| - |SkipSpace(w)|;
    if i < |w| && (w[i] == '+' || w[i] == '-') then i + 1 else i
  }

  /** The sign read after the leading whitespace is a minus. */
  predicate Negative(w: string) {
    var i := |w| - |SkipSpace(w)|;
    i < |w| && w[i] == '-'
  }

  /** The `d` characters of `w` from index `j` on. */
  function Span(w: string, j: nat, d: nat): (r: string)
    requires j + d <= |w|
    ensures |r| == d && forall k :: 0 <= k < d ==> r[k] == w[j + k]
  {
    w[j..j + d]
  }

  /** The digit run at `j`, restated as positions of `w`. */
  lemma DigitRunAt(w: string, j: nat)
    requires j <= |w|
    ensures var d := DigitRun(w[j..]);
            j + d <= |w|
            && (forall k :: j <= k < j + d ==> IsDigit(w[k]))
            && (d > 0 ==> IsDigit(w[j + d - 1]))
            && (j + d == |w| || !IsDigit(w[j + d]))
  {
    var d := DigitRun(w[j..]);
    assert forall k :: j <= k < j + d ==> w[k] == w[j..][k - j];
    if d > 0 { assert w[j + d - 1] == w[j..][d - 1]; }
    if j + d < |w| { assert w[j + d] == w[j..][d]; }
  }

  /** A word whose first character after the whitespace and the optional
      sign is not a digit converts nothing. */
  lemma NoDigitsNoConversion(w: string)
    requires var t := SkipSpace(w);
             var u := if t != [] && (t[0] == '+' || t[0] == '-') then t[1..] else t;
             u == [] || !IsDigit(u[0])
    ensures StrToLL(w).consumed == 0
  {
  }

  /** A rendered number followed by anything that is not a digit reads back
      as that number, consuming exactly its digits; past LLONG_MAX it
      saturates with overflow. */
  lemma {:induction false} StrToLLOfDecimal(n: nat, tail: string)
    requires tail == [] || !IsDigit(tail[0])
    ensures n <= LLONG_MAX ==> StrToLL(Decimal(n) + tail) == Conversion(n, |Decimal(n)|, false)
    ensures n > LLONG_MAX ==> StrToLL(Decimal(n) + tail) == Conversion(LLONG_MAX, |Decimal(n)|, true)
  {
    var ds := Decimal(n);
    UnsignedLayout(ds, tail);
    StrToLLOfRun(ds + tail, 0, |ds|);
    DecimalValueOfDecimal(n);
  }

  /** A minus sign before a rendered number negates it; past LLONG_MIN it
      saturates with overflow. */
  lemma {:induction false} StrToLLOfNegative(n: nat, tail: string)
    requires tail == [] || !IsDigit(tail[0])
    ensures n <= -LLONG_MIN ==> StrToLL("-" + Decimal(n) + tail) == Conversion(-(n as int), |Decimal(n)| + 1, false)
    ensures n > -LLONG_MIN ==> StrToLL("-" + Decimal(n) + tail) == Conversion(LLONG_MIN, |Decimal(n)| + 1, true)
  {
    var ds := Decimal(n);
    NegativeLayout(ds, tail);
    StrToLLOfRun("-" + ds + tail, 1, |ds|);
    DecimalValueOfDecimal(n);
  }

  /** Any numeral `strtoll` reads: leading whitespace, an optional sign and
      digits, followed by a non-digit or the end. The end pointer lies just
      past the digits, the value is the signed value of the digits clamped
      to the `long long` range, and overflow is flagged exactly when the
      clamp applies. */
  lemma {:induction false} StrToLLOfNumeral(ws: string, sign: string, ds: string, tail: string)
    requires forall i :: 0 <= i < |ws| ==> IsSpace(ws[i])
    requires sign == "" || sign == "+" || sign == "-"
    requires |ds| > 0 && forall i :: 0 <= i < |ds| ==> IsDigit(ds[i])
    requires tail == [] || !IsDigit(tail[0])
    ensures var m: int := DecimalValue(ds);
            var v: int := if sign == "-" then -m else m;
            var c := StrToLL(ws + sign + ds + tail);
            c.consumed == |ws| + |sign| + |ds|
            && (c.overflow <==> v < LLONG_MIN || LLONG_MAX < v)
            && c.value == (if v > LLONG_MAX then LLONG_MAX else if v < LLONG_MIN then LLONG_MIN else v)
  {
    var w := ws + sign + ds + tail;
    NumeralLayout(ws, sign, ds, tail);
    StrToLLOfRun(w, |ws| + |sign|, |ds|);
  }

  /** Where the digits of `ws + sign + ds + tail` lie: after the whitespace
      and the sign, exactly `ds`. */
  lemma NumeralLayout(ws: string, sign: string, ds: string, tail: string)
    requires forall i :: 0 <= i < |ws| ==> IsSpace(ws[i])
    requires sign == "" || sign == "+" || sign == "-"
    requires |ds| > 0 && forall i :: 0 <= i < |ds| ==> IsDigit(ds[i])
    requires tail == [] || !IsDigit(tail[0])
    ensures var w := ws + sign + ds + tail;
            var j := |ws| + |sign|;
            NumberStart(w) == j && (Negative(w) <==> sign == "-")
            && DigitRun(w[j..]) == |ds| && Span(w, j, |ds|) == ds
  {
    var w := ws + sign + ds + tail;
    var j := |ws| + |sign|;
    assert w == (ws + sign) + (ds + tail);
    NumeralStart(ws, sign, ds + tail);
    assert w[j..] == ds + tail;
    DigitRunOfDigits(ds, tail);
    assert Span(w, j, |ds|) == ds;
  }

  /** The digits of `ws + sign + rest`, with `rest` starting with a digit,
      begin after the whitespace and the sign, and the sign decides the
      negation. */
  lemma NumeralStart(ws: string, sign: string, rest: string)
    requires forall i :: 0 <= i < |ws| ==> IsSpace(ws[i])
    requires sign == "" || sign == "+" || sign == "-"
    requires rest != [] && IsDigit(rest[0])
    ensures var w := ws + sign + rest;
            NumberStart(w) == |ws| + |sign| && (Negative(w) <==> sign == "-")
  {
    var w := ws + sign + rest;
    var after := sign + rest;
    assert w == ws + after;
    var c := if sign == "" then rest[0] else sign[0];
    assert after[0] == c;
    SkipSpaceOfSpaces(ws, after);
    SignAt(w, |ws|, c);
    assert (c == '-') <==> sign == "-";
    assert (c == '+' || c == '-') <==> sign != "";
  }

  /** Where the whitespace of `w` ends at `i` on a character `c`. */
  lemma SignAt(w: string, i: nat, c: char)
    requires i < |w| && w[i] == c && |SkipSpace(w)| == |w| - i
    ensures NumberStart(w) == if c == '+' || c == '-' then i + 1 else i
    ensures Negative(w) <==> c == '-'
  {
  }

  /** Where the digits of `ds + tail` lie: from the start, exactly `ds`. */
  lemma UnsignedLayout(ds: string, tail: string)
    requires |ds| > 0 && forall i :: 0 <= i < |ds| ==> IsDigit(ds[i])
    requires tail == [] || !IsDigit(tail[0])
    ensures var w := ds + tail;
            NumberStart(w) == 0 && !Negative(w)
            && DigitRun(w[0..]) == |ds| && Span(w, 0, |ds|) == ds
  {
    var w := ds + tail;
    assert w[0] == ds[0];
    assert SkipSpace(w) == w;
    assert w[0..] == w;
    DigitRunOfDigits(ds, tail);
    assert Span(w, 0, |ds|) == ds;
  }

  /** Where the digits of `"-" + ds + tail` lie: after the sign, exactly
      `ds`. */
  lemma NegativeLayout(ds: string, tail: string)
    requires |ds| > 0 && forall i :: 0 <= i < |ds| ==> IsDigit(ds[i])
    requires tail == [] || !IsDigit(tail[0])
    ensures var w := "-" + ds + tail;
            NumberStart(w) == 1 && Negative(w)
            && DigitRun(w[1..]) == |ds| && Span(w, 1, |ds|) == ds
  {
    var w := "-" + ds + tail;
    assert w[0] == '-';
    assert SkipSpace(w) == w;
    assert w[1..] == ds + tail;
    DigitRunOfDigits(ds, tail);
    assert Span(w, 1, |ds|) == ds;
  }

  /** `strtoll` of a word whose digits start at `j` and run for `d > 0`
      characters. */
  lemma StrToLLOfRun(w: string, j: nat, d: nat)
    requires j == NumberStart(w) && d == DigitRun(w[j..]) && d > 0 && j + d <= |w|
    ensures var m: int := DecimalValue(Span(w, j, d));
            var v: int := if Negative(w) then -m else m;
            StrToLL(w) ==
              if v > LLONG_MAX then Conversion(LLONG_MAX, j + d, true)
              else if v < LLONG_MIN then Conversion(LLONG_MIN, j + d, true)
              else Conversion(v, j + d, false)
  {
  }

  /** The digit run of digits followed by a non-digit is exactly those digits. */
  lemma {:induction false} DigitRunOfDigits(s: string, tail: string)
    requires forall i :: 0 <= i < |s| ==> IsDigit(s[i])
    requires tail == [] || !IsDigit(tail[0])
    ensures DigitRun(s + tail) == |s|
    decreases |s|
  {
    if s != [] {
      assert (s + tail)[1..] == s[1..] + tail;
      DigitRunOfDigits(s[1..], tail);
    }
  }

  /** The `(int)` conversion of a `long`: two's-complement wrap-around to 32
      bits. The result is an `int` congruent to `n` modulo 2^32. */
  function Narrow32(n: int): (r: int)
    ensures INT_MIN <= r <= INT_MAX
    ensures (n - r) % 0x1_0000_0000 == 0
  {
    (n + 0x8000_0000) % 0x1_0000_0000 - 0x8000_0000
  }

  /** Narrowing leaves a value that already fits unchanged. */
  lemma NarrowFits(n: int)
    requires INT_MIN <= n <= INT_MAX
    ensures Narrow32(n) == n
  {
  }
}
