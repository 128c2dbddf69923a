/**
 * The platform primitives the clock firmware leans on, as the ESP8266
 * Arduino core and the C library define them: fixed-width integers, the
 * decimal text that `String(n)` and `String += n` produce, `atoi`/`toInt`,
 * and the `String::substring` and `String::indexOf` members.
 */
module Arduino {

  /** `byte` / `unsigned char` */
  type Byte = x: int | 0 <= x < 0x100
  /** `int` and `long` on the ESP8266 (both 32 bits wide) */
  type Int32 = x: int | -0x8000_0000 <= x < 0x8000_0000
  /** `unsigned long` on the ESP8266 */
  type ULong = x: int | 0 <= x < 0x1_0000_0000

  datatype Option<+T> = None | Some(value: T)

  /** C conversion of an integer to a 32-bit signed integer (two's complement wrap). */
  function WrapInt32(n: int): (r: Int32)
    ensures (r - n) % 0x1_0000_0000 == 0
    ensures -0x8000_0000 <= n < 0x8000_0000 ==> r == n
  {
    (n + 0x8000_0000) % 0x1_0000_0000 - 0x8000_0000
  }

  /** C conversion of an integer to `unsigned long`: reduction modulo 2^32. */
  function WrapULong(n: int): (r: ULong)
    ensures (r - n) % 0x1_0000_0000 == 0
    ensures 0 <= n < 0x1_0000_0000 ==> r == n
  {
    n % 0x1_0000_0000
  }

  /** C conversion of an integer to `unsigned char`: reduction modulo 2^8. */
  function WrapByte(n: int): (r: Byte)
    ensures (r - n) % 0x100 == 0
    ensures 0 <= n < 0x100 ==> r == n
  {
    n % 0x100
  }

  /** C's `/` on integers: the quotient truncated toward zero. */
  function TDiv(a: int, b: int): (q: int)
    requires b > 0
    ensures a >= 0 ==> 0 <= a - q * b < b
    ensures a < 0 ==> -b < a - q * b <= 0
  {
    if a >= 0 then a / b else -((-a) / b)
  }

  function Pow2(k: nat): (p: nat)
    ensures p >= 1
  {
    if k == 0 then 1 else 2 * Pow2(k - 1)
  }

  /** C's `|` on non-negative integers, bit by bit from the lowest. */
  function BitOr(a: nat, b: nat): nat
    decreases a + b
  {
    if a == 0 && b == 0 then 0
    else 2 * BitOr(a / 2, b / 2) + (if a % 2 == 1 || b % 2 == 1 then 1 else 0)
  }

  lemma {:induction false} BitOrZero(a: nat)
    ensures BitOr(a, 0) == a
  {
    if a > 0 {
      BitOrZero(a / 2);
    }
  }

  /** Or-ing bits below position `k` into a number shifted left by `k` just adds them. */
  lemma {:induction false} BitOrShifted(a: nat, b: nat, k: nat)
    requires b < Pow2(k)
    ensures BitOr(a * Pow2(k), b) == a * Pow2(k) + b
  {
    if k == 0 {
      BitOrZero(a);
    } else {
      var m := a * Pow2(k);
      assert m == 2 * (a * Pow2(k - 1));
      BitOrShifted(a, b / 2, k - 1);
    }
  }

  // ---------------------------------------------------------------------------
  // Decimal text
  // ---------------------------------------------------------------------------

  predicate IsDigit(c: char) {
    '0' <= c <= '9'
  }

  predicate AllDigits(s: string) {
    forall i | 0 <= i < |s| :: IsDigit(s[i])
  }

  function DigitChar(d: nat): (c: char)
    requires d < 10
    ensures IsDigit(c) && c as int - '0' as int == d
  {
    (d + '0' as int) as char
  }

  function DigitValue(c: char): (d: nat)
    requires IsDigit(c)
    ensures d < 10 && DigitChar(d) == c
  {
    c as int - '0' as int
  }

  /** Decimal text of a natural number, most significant digit first, no leading zeros. */
  function NatToString(n: nat): (s: string)
    ensures |s| > 0 && AllDigits(s)
    ensures n < 10 <==> |s| == 1
    ensures |s| > 1 ==> s[0] != '0'
  {
    if n < 10 then [DigitChar(n)] else NatToString(n / 10) + [DigitChar(n % 10)]
  }

  /** Decimal text of an integer: Arduino's `String(long)` and `String::concat(long)`. */
  function IntToString(n: int): (s: string)
    ensures |s| > 0
    ensures n >= 0 ==> AllDigits(s) && DigitsValue(s) == n
    ensures n < 0 ==> |s| >= 2 && s[0] == '-' && AllDigits(s[1..]) && DigitsValue(s[1..]) == -n
  {
    DigitsValueOfNatToString(if n < 0 then -n else n);
    if n < 0 then "-" + NatToString(-n) else NatToString(n)
  }

  /** The number a string of decimal digits denotes. */
  function DigitsValue(s: string): (v: nat)
    requires AllDigits(s)
  {
    if s == [] then 0 else DigitsValue(s[..|s| - 1]) * 10 + DigitValue(s[|s| - 1])
  }

  lemma {:induction false} DigitsValueOfNatToString(n: nat)
    ensures DigitsValue(NatToString(n)) == n
  {
    if n >= 10 {
      var s := NatToString(n);
      assert s[..|s| - 1] == NatToString(n / 10);
      DigitsValueOfNatToString(n / 10);
    }
  }

  /** Ten to the power `k`. */
  function Pow10(k: nat): (p: nat)
    ensures p >= 1
  {
    if k == 0 then 1 else 10 * Pow10(k - 1)
  }

  /** A number below 10^k takes at most k digits. */
  lemma {:induction false} NatToStringLength(n: nat, k: nat)
    requires 1 <= k && n < Pow10(k)
    ensures |NatToString(n)| <= k
  {
    if n >= 10 {
      NatToStringLength(n / 10, k - 1);
    }
  }

  /** `k` zero characters (none when `k` is not positive). */
  function Zeros(k: int): (z: string)
    ensures |z| == if k > 0 then k else 0
    ensures forall i | 0 <= i < |z| :: z[i] == '0'
  {
    if k <= 0 then "" else Zeros(k - 1) + "0"
  }

  /** Leading zeros do not change the number a digit string denotes. */
  lemma {:induction false} DigitsValueLeadingZeros(k: int, t: string)
    requires AllDigits(t)
    ensures AllDigits(Zeros(k) + t) && DigitsValue(Zeros(k) + t) == DigitsValue(t)
    decreases |t|, k
  {
    var z := Zeros(k);
    if t == [] {
      assert z + t == z;
      if k > 0 {
        DigitsValueLeadingZeros(k - 1, []);
        assert z[..|z| - 1] == Zeros(k - 1) + [];
      }
    } else {
      DigitsValueLeadingZeros(k, t[..|t| - 1]);
      assert (z + t)[..|z + t| - 1] == z + t[..|t| - 1];
    }
  }

  /**
   * printf's `%0<w>d`: the decimal text of `n`, zero-padded after the sign
   * to at least `w` characters.
   */
  function PadInt(n: int, w: nat): (r: string)
  {
    var digits := NatToString(if n < 0 then -n else n);
    var sign := if n < 0 then "-" else "";
    sign + Zeros(w - |sign| - |digits|) + digits
  }

  /** A number with at most `w` digits prints as exactly `w` digits that read back as the number. */
  lemma PadIntWidth(n: nat, w: nat)
    requires 1 <= w && n < Pow10(w)
    ensures |PadInt(n, w)| == w && AllDigits(PadInt(n, w))
    ensures DigitsValue(PadInt(n, w)) == n
  {
    NatToStringLength(n, w);
    DigitsValueOfNatToString(n);
    DigitsValueLeadingZeros(w - |NatToString(n)|, NatToString(n));
    assert PadInt(n, w) == Zeros(w - |NatToString(n)|) + NatToString(n);
  }

  /** The characters C's `isspace` accepts. */
  predicate IsSpace(c: char) {
    c == ' ' || c == '\t' || c == '\n' || c == '\r' || c == '\U{B}' || c == '\U{C}'
  }

  /** `s` without its leading white space. */
  function SkipSpace(s: string): string
  {
    if s != [] && IsSpace(s[0]) then SkipSpace(s[1..]) else s
  }

  /**
   * `strtol`'s digit loop: starting from `acc`, multiply by ten and add each
   * decimal digit at the head of `s`, stopping at the first other character.
   */
  function ReadDigits(s: string, acc: nat): nat
  {
    if s != [] && IsDigit(s[0]) then ReadDigits(s[1..], acc * 10 + DigitValue(s[0])) else acc
  }

  /**
   * C's `atoi` / `atol` (and so Arduino's `String::toInt`): skip leading white
   * space, read an optional sign, then as many decimal digits as follow; any
   * other text yields 0.  The result is unbounded here; `ToInt` saturates it.
   */
  function Atoi(s: string): int
  {
    var t := SkipSpace(s);
    if t != [] && t[0] == '-' then 0 - ReadDigits(t[1..], 0)
    else if t != [] && t[0] == '+' then ReadDigits(t[1..], 0)
    else ReadDigits(t, 0)
  }

  /** One more digit at the end multiplies what was read by ten and adds the digit. */
  lemma {:induction false} ReadDigitsSnoc(d: string, c: char, acc: nat)
    requires AllDigits(d) && IsDigit(c)
    ensures ReadDigits(d + [c], acc) == ReadDigits(d, acc) * 10 + DigitValue(c)
  {
    if d == [] {
      assert d + [c] == [c];
    } else {
      assert (d + [c])[1..] == d[1..] + [c];
      ReadDigitsSnoc(d[1..], c, acc * 10 + DigitValue(d[0]));
    }
  }

  /** The digit loop reads back the decimal text of every natural number. */
  lemma {:induction false} ReadDigitsOfNatToString(n: nat)
    ensures ReadDigits(NatToString(n), 0) == n
  {
    if n < 10 {
      assert NatToString(n)[1..] == [];
    } else {
      ReadDigitsOfNatToString(n / 10);
      ReadDigitsSnoc(NatToString(n / 10), DigitChar(n % 10), 0);
    }
  }

  /** The digit loop of `atoi` and the positional value agree on every digit string. */
  lemma {:induction false} DigitsValueIsReadDigits(s: string)
    requires AllDigits(s)
    ensures ReadDigits(s, 0) == DigitsValue(s)
  {
    if s != [] {
      var d, c := s[..|s| - 1], s[|s| - 1];
      assert s == d + [c];
      DigitsValueIsReadDigits(d);
      ReadDigitsSnoc(d, c, 0);
    }
  }

  /** `atoi` reads back every number `String(n)` prints. */
  lemma AtoiOfIntToString(n: int)
    ensures Atoi(IntToString(n)) == n
  {
    var m := if n < 0 then -n else n;
    ReadDigitsOfNatToString(m);
    var s := IntToString(n);
    assert !IsSpace(s[0]);
    assert SkipSpace(s) == s;
    if n < 0 {
      assert s[0] == '-' && s[1..] == NatToString(m);
    } else {
      assert s == NatToString(m) && IsDigit(s[0]);
    }
  }

  /**
   * `atoi` as newlib builds it on `strtol`, and so Arduino's `String::toInt`:
   * the value `Atoi` reads, saturated to the 32-bit range of `int`/`long`.
   */
  function ToInt(s: string): (r: Int32)
  {
    var v := Atoi(s);
    if v < -0x8000_0000 then -0x8000_0000 else if v >= 0x8000_0000 then 0x7FFF_FFFF else v
  }

  /** `toInt` reads back every `int` that `String(n)` prints. */
  lemma ToIntOfIntToString(n: Int32)
    ensures ToInt(IntToString(n)) == n
  {
    AtoiOfIntToString(n);
  }

  /**
   * C's `strlen` on a character buffer: the position of the first NUL, or the
   * whole buffer when it holds none.
   */
  function Strlen(buf: string): (n: nat)
    ensures n <= |buf| && '\0' !in buf[..n]
    ensures n < |buf| ==> buf[n] == '\0'
  {
    if buf == [] || buf[0] == '\0' then 0 else 1 + Strlen(buf[1..])
  }

  // ---------------------------------------------------------------------------
  // String members
  // ---------------------------------------------------------------------------

  /**
   * `String::substring(unsigned int left, unsigned int right)` called with `int`
   * arguments: both bounds are converted to unsigned int, swapped when out of
   * order, and the right one is clipped to the length; a left bound past the
   * end yields "".
   */
  function Substring(s: string, left: Int32, right: Int32): (r: string)
    ensures 0 <= left <= right <= |s| ==> r == s[left..right]
    ensures left == 0 && right == -1 && |s| < 0xFFFF_FFFF ==> r == s
  {
    var l := if left < 0 then left + 0x1_0000_0000 else left;
    var h := if right < 0 then right + 0x1_0000_0000 else right;
    var lo := if l > h then h else l;
    var hi := if l > h then l else h;
    if lo > |s| then "" else s[lo..if hi > |s| then |s| else hi]
  }

  /**
   * `String::indexOf(c, from)`: the first position at or after `from` that holds
   * `c`, or -1 when there is none.
   */
  function IndexOf(s: string, c: char, from: nat): (r: int)
    ensures r == -1 || from <= r < |s|
    ensures r == -1 ==> forall k | from <= k < |s| :: s[k] != c
    ensures r != -1 ==> s[r] == c && forall k | from <= k < r :: s[k] != c
    decreases |s| - from
  {
    if from >= |s| then -1 else if s[from] == c then from else IndexOf(s, c, from + 1)
  }
}
