/**
 Session ids of the free tier: a fixed prefix, twelve hex digits of inverted clock, fourteen base-62 digits of
 identity.
 */
module SessionId {
  import opened GoStrings

  // ---------- Positional numbers ----------

  function Power(base: nat, e: nat): (p: nat)
    ensures base > 0 ==> p > 0
  {
    if e == 0 then 1 else Power(base, e - 1) * base
  }

  /** The number whose digits, most significant first, these are. */
  function Value(digits: seq<nat>, base: nat): nat {
    if digits == [] then 0 else Value(digits[..|digits| - 1], base) * base + digits[|digits| - 1]
  }

  predicate AreDigits(digits: seq<nat>, base: nat) {
    forall i :: 0 <= i < |digits| ==> digits[i] < base
  }

  lemma {:induction false} ProductBound(a: nat, b: nat, base: nat, d: nat)
    requires a < b && d < base
    ensures a * base + d < b * base
  {
    assert (a + 1) * base <= b * base;
  }

  lemma {:induction false} ValueIsBounded(digits: seq<nat>, base: nat)
    requires AreDigits(digits, base)
    ensures Value(digits, base) < Power(base, |digits|)
  {
    if digits != [] {
      var front, last := digits[..|digits| - 1], digits[|digits| - 1];
      ValueIsBounded(front, base);
      ProductBound(Value(front, base), Power(base, |front|), base, last);
    }
  }

  /** Numerals of one length are equal when their values are. */
  lemma {:induction false} ValueIsInjective(a: seq<nat>, b: seq<nat>, base: nat)
    requires |a| == |b| && AreDigits(a, base) && AreDigits(b, base) && Value(a, base) == Value(b, base)
    ensures a == b
  {
    if a != [] {
      var n := |a| - 1;
      var x, y := Value(a[..n], base), Value(b[..n], base);
      FrontsAgree(x, y, base, a[n], b[n]);
      ValueIsInjective(a[..n], b[..n], base);
      assert a == a[..n] + [a[n]] && b == b[..n] + [b[n]];
    }
  }

  lemma {:induction false} FrontsAgree(x: nat, y: nat, base: nat, c: nat, d: nat)
    requires c < base && d < base
    ensures x * base + c == y * base + d ==> x == y && c == d
    ensures x * base + c < y * base + d <==> x < y || (x == y && c < d)
  {
    if x < y {
      ProductBound(x, y, base, c);
    } else if y < x {
      ProductBound(y, x, base, d);
    }
  }

  lemma {:induction false} SumTimes(digit: nat, p: nat, v: nat, base: nat)
    ensures (digit * p + v) * base == digit * (p * base) + v * base
  {
    assert (digit * p) * base == digit * (p * base);
  }

  lemma {:induction false} ValuePrepend(digit: nat, digits: seq<nat>, base: nat)
    ensures Value([digit] + digits, base) == digit * Power(base, |digits|) + Value(digits, base)
  {
    if digits == [] {
      assert [digit] + digits == [digit];
      assert Value([digit], base) == Value([], base) * base + digit;
    } else {
      var n := |digits| - 1;
      var front := digits[..n];
      ValuePrepend(digit, front, base);
      assert ([digit] + digits)[..n + 1] == [digit] + front;
      SumTimes(digit, Power(base, n), Value(front, base), base);
    }
  }

  /** The usual order of texts, for two of one length. */
  ghost predicate Precedes(a: seq<nat>, b: seq<nat>)
    requires |a| == |b|
  {
    exists k :: 0 <= k < |a| && a[..k] == b[..k] && a[k] < b[k]
  }

  lemma {:induction false} SmallerComesFirst(a: seq<nat>, b: seq<nat>, base: nat)
    requires |a| == |b| && AreDigits(a, base) && AreDigits(b, base) && Value(a, base) < Value(b, base)
    ensures Precedes(a, b)
  {
    var n := |a| - 1;
    var x, y := Value(a[..n], base), Value(b[..n], base);
    FrontsAgree(x, y, base, a[n], b[n]);
    if x < y {
      SmallerComesFirst(a[..n], b[..n], base);
      var k :| 0 <= k < n && a[..n][..k] == b[..n][..k] && a[..n][k] < b[..n][k];
      assert a[..n][..k] == a[..k] && b[..n][..k] == b[..k];
    } else {
      ValueIsInjective(a[..n], b[..n], base);
    }
  }

  // ---------- Base 62 ----------

  predicate IsBase62(c: char) {
    '0' <= c <= '9' || 'A' <= c <= 'Z' || 'a' <= c <= 'z'
  }

  /** The d-th character of the alphabet 0-9A-Za-z. */
  function Base62Char(d: nat): (c: char)
    requires d < 62
    ensures IsBase62(c) && Base62Digit(c) == d
  {
    if d < 10 then '0' + d as char else if d < 36 then 'A' + (d - 10) as char else 'a' + (d - 36) as char
  }

  function Base62Digit(c: char): (d: nat)
    ensures d < 62
  {
    if '0' <= c <= '9' then c as int - '0' as int
    else if 'A' <= c <= 'Z' then c as int - 'A' as int + 10
    else if 'a' <= c <= 'z' then c as int - 'a' as int + 36
    else 0
  }

  lemma {:induction false} DigitNamesChar(c: char)
    requires IsBase62(c)
    ensures Base62Char(Base62Digit(c)) == c
  {
  }

  const DIGITS := "0123456789"
  const ALPHABET := DIGITS + UPPER + LOWER

  /** The alphabet, digit by digit. */
  lemma {:induction false} AlphabetIs(c: char)
    ensures forall d :: 0 <= d < 62 ==> Base62Char(d) == ALPHABET[d]
    ensures IsBase62(c) <==> c in ALPHABET
  {
    forall d | 0 <= d < 62
      ensures Base62Char(d) == ALPHABET[d]
    {
      if d < 10 {
        assert DIGITS[d] == '0' + d as char;
      } else {
        LetterIs(if d < 36 then d - 10 else d - 36);
      }
    }
    if IsBase62(c) {
      assert ALPHABET[Base62Digit(c)] == Base62Char(Base62Digit(c));
      DigitNamesChar(c);
    }
    if c in ALPHABET {
      var d :| 0 <= d < 62 && ALPHABET[d] == c;
      assert Base62Char(d) == c;
    }
  }

  predicate AllBase62(text: string) {
    forall i :: 0 <= i < |text| ==> IsBase62(text[i])
  }

  function Base62Digits(text: string): (digits: seq<nat>)
    ensures |digits| == |text|
    ensures forall i :: 0 <= i < |text| ==> digits[i] == Base62Digit(text[i])
    ensures AreDigits(digits, 62)
  {
    seq(|text|, i requires 0 <= i < |text| => Base62Digit(text[i]))
  }

  type Byte = x: nat | x < 256

  function Widened(data: seq<Byte>): (digits: seq<nat>)
    ensures digits == data && AreDigits(digits, 256)
  {
    data
  }

  /** `encodeBase62`: the text of `length` base-62 digits whose value is that of the bytes modulo 62^length. */
  method EncodeBase62(data: seq<Byte>, length: nat) returns (text: string)
    ensures Encodes(text, data, length)
  {
    ghost var left;
    text, left := WriteDigits(Value(Widened(data), 256), length);
    CarriedModulo(Value(Widened(data), 256), left, text);
  }

  /** The loop of `encodeBase62`, from the last place to the first; `left` is what no place was left for. */
  method WriteDigits(whole: nat, length: nat) returns (text: string, ghost left: nat)
    ensures |text| == length && Carries(whole, left, text)
  {
    var value := whole;
    var out := new char[length];
    assert out[length..] == "";
    left := value;
    for i := length downto 0
      invariant Carries(whole, value, out[i..])
    {
      value := WriteDigit(out, i, value, whole);
      if value == 0 {
        FillZeros(out, i, whole);
        text := out[..];
        left := 0;
        return;
      }
    }
    text := out[..];
    left := value;
    assert out[0..] == text;
  }

  /** One turn of the loop: the last digit of the value goes to place `i`. */
  method WriteDigit(out: array<char>, i: nat, value: nat, ghost whole: nat) returns (quotient: nat)
    requires i < out.Length && Carries(whole, value, out[i + 1..])
    modifies out
    ensures Carries(whole, quotient, out[i..])
  {
    ghost var rest := out[i + 1..];
    DigitShifts(whole, value, rest);
    var c := Base62Char(value % 62);
    quotient := value / 62;
    out[i] := c;
    assert out[i..] == [c] + rest;
  }

  /** The early fill of the places before `n`, when nothing is left to write. */
  method FillZeros(out: array<char>, n: nat, ghost whole: nat)
    requires n <= out.Length && Carries(whole, 0, out[n..])
    modifies out
    ensures Carries(whole, 0, out[..])
  {
    for j := n downto 0
      invariant Carries(whole, 0, out[j..])
    {
      ghost var rest := out[j + 1..];
      out[j] := '0';
      assert out[j..] == ['0'] + rest;
      DigitShifts(whole, 0, rest);
    }
    assert out[0..] == out[..];
  }

  /** Appending the digits of `rest` to `value` gives the whole number. */
  predicate Carries(whole: nat, value: nat, rest: string)
    decreases rest
  {
    if rest == "" then whole == value
    else IsBase62(rest[0]) && Carries(whole, value * 62 + Base62Digit(rest[0]), rest[1..])
  }

  lemma {:induction false} DigitShifts(whole: nat, value: nat, rest: string)
    requires Carries(whole, value, rest)
    ensures Carries(whole, value / 62, [Base62Char(value % 62)] + rest)
  {
    assert ([Base62Char(value % 62)] + rest)[1..] == rest;
  }

  lemma {:induction false} CarriedSum(whole: nat, value: nat, rest: string)
    requires Carries(whole, value, rest)
    ensures AllBase62(rest) && whole == value * Power(62, |rest|) + Value(Base62Digits(rest), 62)
    decreases rest
  {
    if rest != "" {
      var d := Base62Digit(rest[0]);
      CarriedSum(whole, value * 62 + d, rest[1..]);
      assert Base62Digits(rest) == [d] + Base62Digits(rest[1..]);
      ValuePrepend(d, Base62Digits(rest[1..]), 62);
      Distribute(value, d, Power(62, |rest| - 1));
    }
  }

  lemma {:induction false} Distribute(value: nat, d: nat, p: nat)
    ensures (value * 62 + d) * p == value * (p * 62) + d * p
  {
    assert (value * 62) * p == value * (p * 62);
  }

  lemma {:induction false} CarriedModulo(whole: nat, value: nat, text: string)
    requires Carries(whole, value, text)
    ensures AllBase62(text) && Value(Base62Digits(text), 62) == whole % Power(62, |text|)
  {
    CarriedSum(whole, value, text);
    ValueIsBounded(Base62Digits(text), 62);
    ModuloIs(whole, value, Power(62, |text|), Value(Base62Digits(text), 62));
  }

  lemma {:induction false} ModuloOfSmall(v: nat, m: nat)
    requires v < m
    ensures v % m == v
  {
  }

  lemma {:induction false} ModuloIs(v: nat, q: nat, m: nat, r: nat)
    requires r < m && v == q * m + r
    ensures v % m == r
  {
    FrontsAgree(q, v / m, m, r, v % m);
    assert v == (v / m) * m + v % m;
  }

  /** The text is determined by its length and value, so `EncodeBase62` has one possible result. */
  lemma {:induction false} Base62IsDetermined(a: string, b: string)
    requires |a| == |b| && AllBase62(a) && AllBase62(b)
    requires Value(Base62Digits(a), 62) == Value(Base62Digits(b), 62)
    ensures a == b
  {
    ValueIsInjective(Base62Digits(a), Base62Digits(b), 62);
    forall i | 0 <= i < |a|
      ensures a[i] == b[i]
    {
      assert Base62Digits(a)[i] == Base62Digits(b)[i];
      DigitNamesChar(a[i]);
      DigitNamesChar(b[i]);
    }
  }

  /** Fourteen base-62 digits hold any ten bytes. */
  lemma {:induction false} TenBytesFit()
    ensures Power(256, 10) < Power(62, 14)
  {
    assert Power(62, 7) == 3521614606208 by {
      assert Power(62, 3) == 238328;
      assert Power(62, 5) == 916132832;
    }
    assert Power(62, 10) == 839299365868340224;
    assert Power(62, 12) == 3226266762397899821056;
    assert Power(62, 14) == 12401769434657526912139264;
    assert Power(256, 3) == 16777216;
    assert Power(256, 6) == 281474976710656;
    assert Power(256, 8) == 18446744073709551616;
    assert Power(256, 10) == 1208925819614629174706176;
  }

  /** `text` is an encoding of the bytes. */
  predicate Encodes(text: string, data: seq<Byte>, length: nat) {
    && |text| == length && AllBase62(text)
    && Value(Base62Digits(text), 62) == Value(Widened(data), 256) % Power(62, length)
  }

  /** Ten bytes can be read back from their encoding: different bytes have different texts. */
  lemma {:induction false} TenBytesAreRecovered(a: seq<Byte>, b: seq<Byte>, text: string, text': string)
    requires |a| == |b| == 10 && Encodes(text, a, 14) && Encodes(text', b, 14)
    ensures text == text' <==> a == b
    ensures Value(Base62Digits(text), 62) == Value(Widened(a), 256)
  {
    TenBytesFit();
    ValueIsBounded(Widened(a), 256);
    ValueIsBounded(Widened(b), 256);
    ModuloOfSmall(Value(Widened(a), 256), Power(62, 14));
    ModuloOfSmall(Value(Widened(b), 256), Power(62, 14));
    if text == text' {
      ValueIsInjective(Widened(a), Widened(b), 256);
    } else if a == b {
      Base62IsDetermined(text, text');
    }
  }

  // ---------- The clock segment ----------

  function HexChar(d: nat): (c: char)
    requires d < 16
    ensures IsLowerHex(c) && HexDigit(c) == d
  {
    if d < 10 then '0' + d as char else 'a' + (d - 10) as char
  }

  predicate IsLowerHex(c: char) {
    '0' <= c <= '9' || 'a' <= c <= 'f'
  }

  predicate IsHex(c: char) {
    '0' <= c <= '9' || 'a' <= c <= 'f' || 'A' <= c <= 'F'
  }

  function HexDigit(c: char): (d: nat)
    ensures d < 16
  {
    if '0' <= c <= '9' then c as int - '0' as int
    else if 'a' <= c <= 'f' then c as int - 'a' as int + 10
    else if 'A' <= c <= 'F' then c as int - 'A' as int + 10
    else 0
  }

  const HEX := "0123456789abcdef"
  const UPPER_HEX := "0123456789ABCDEF"

  /** The hex digits, one by one, of which capital letters are read but not written. */
  lemma {:induction false} HexIs(c: char)
    ensures forall d :: 0 <= d < 16 ==> HexChar(d) == HEX[d] && HexDigit(HEX[d]) == d && HexDigit(UPPER_HEX[d]) == d
    ensures IsHex(c) <==> c in HEX || c in UPPER_HEX
    ensures IsLowerHex(c) <==> c in HEX
  {
    if IsHex(c) {
      assert c == HEX[HexDigit(c)] || c == UPPER_HEX[HexDigit(c)];
    }
  }

  function HexDigits(text: string): (digits: seq<nat>)
    ensures |digits| == |text| && AreDigits(digits, 16)
    ensures forall i :: 0 <= i < |text| ==> digits[i] == HexDigit(text[i])
  {
    seq(|text|, i requires 0 <= i < |text| => HexDigit(text[i]))
  }

  /** The last `length` lower-case hex digits of a number; all of them, zero-padded, when it is below 16^length. */
  function HexText(v: nat, length: nat): (text: string)
    ensures |text| == length && forall i :: 0 <= i < length ==> IsLowerHex(text[i])
  {
    if length == 0 then "" else HexText(v / 16, length - 1) + [HexChar(v % 16)]
  }

  lemma {:induction false} HexTextValue(v: nat, length: nat)
    requires v < Power(16, length)
    ensures Value(HexDigits(HexText(v, length)), 16) == v
  {
    if length > 0 {
      assert v / 16 < Power(16, length - 1);
      HexTextValue(v / 16, length - 1);
      var front := HexText(v / 16, length - 1);
      assert HexDigits(HexText(v, length)) == HexDigits(front) + [v % 16];
      assert (HexDigits(front) + [v % 16])[..length - 1] == HexDigits(front);
    }
  }

  const TWO_TO_36 := 0x10_0000_0000
  const TWO_TO_48 := 0x1_0000_0000_0000
  const TWO_TO_64 := 0x1_0000_0000_0000_0000
  const COUNTER_MASK := 0xFFF
  const COUNTER_MAX := 63

  /** Bitwise complement of a 64-bit number. */
  function Inverse(v: int): int {
    TWO_TO_64 - 1 - v
  }

  /** `uint64(now) << 12 | counter & 0xFFF`; the two parts share no bit, so the `|` is a sum. */
  function Current(nowMilli: int, counter: nat): (v: nat)
    ensures v < TWO_TO_64
  {
    (nowMilli % TWO_TO_64) * 4096 % TWO_TO_64 + counter % (COUNTER_MASK + 1)
  }

  /** `invertedTimestampHex`. */
  function InvertedTimestampHex(nowMilli: int, counter: nat): (text: string)
    ensures |text| == 12 && forall i :: 0 <= i < 12 ==> IsLowerHex(text[i])
  {
    HexText(Inverse(Current(nowMilli, counter)) % TWO_TO_48, 12)
  }

  lemma {:induction false} ModuloOfModulo(v: int, m: nat, k: nat)
    requires m > 0 && k > 0
    ensures m * k > 0 && v % (m * k) % m == v % m
  {
    var q, r := v / (m * k), v % (m * k);
    assert v == q * (m * k) + r;
    assert q * (m * k) == (q * k) * m;
    assert r == (r / m) * m + r % m;
    assert v == (q * k + r / m) * m + r % m by {
      assert (q * k + r / m) * m == (q * k) * m + (r / m) * m;
    }
    IntegerModuloIs(v, q * k + r / m, m, r % m);
  }

  lemma {:induction false} IntegerModuloIs(v: int, q: int, m: nat, r: nat)
    requires r < m && v == q * m + r
    ensures v % m == r
  {
    var d := v / m - q;
    assert v == (v / m) * m + v % m;
    assert (v / m) * m - q * m == d * m;
    Multiples(d, m);
  }

  lemma {:induction false} Multiples(d: int, m: nat)
    ensures d >= 1 ==> d * m >= m
    ensures d <= -1 ==> d * m + m <= 0
  {
  }

  lemma {:induction false} ShiftedModulo(v: nat)
    ensures v * 4096 % TWO_TO_48 == (v % TWO_TO_36) * 4096
  {
    var q, r := v / TWO_TO_36, v % TWO_TO_36;
    assert v * 4096 == q * TWO_TO_48 + r * 4096;
    IntegerModuloIs(v * 4096, q, TWO_TO_48, r * 4096);
  }

  /** The low 48 bits of the number the segment complements. */
  lemma {:induction false} CurrentLow(nowMilli: int, counter: nat)
    ensures Current(nowMilli, counter) % TWO_TO_48 == (nowMilli % TWO_TO_36) * 4096 + counter % 4096
  {
    var n := nowMilli % TWO_TO_64;
    ModuloOfModulo(nowMilli, TWO_TO_36, 0x1000_0000);
    ModuloOfModulo(n * 4096, TWO_TO_48, 0x1_0000);
    ShiftedModulo(n);
    var shifted := n * 4096 % TWO_TO_64;
    var q := shifted / TWO_TO_48;
    var low := (nowMilli % TWO_TO_36) * 4096;
    assert shifted == q * TWO_TO_48 + low;
    IntegerModuloIs(shifted + counter % 4096, q, TWO_TO_48, low + counter % 4096);
  }

  lemma {:induction false} InverseLow(v: nat)
    requires v < TWO_TO_64
    ensures Inverse(v) % TWO_TO_48 == TWO_TO_48 - 1 - v % TWO_TO_48
  {
    IntegerModuloIs(Inverse(v), 0xFFFF - v / TWO_TO_48, TWO_TO_48, TWO_TO_48 - 1 - v % TWO_TO_48);
  }

  lemma {:induction false} InverseCounter(v: nat, high: nat, low: nat)
    requires v < TWO_TO_48 && TWO_TO_48 - 1 - v == high * 4096 + low && low < 4096
    ensures Inverse(v) % 4096 == low
  {
    IntegerModuloIs(Inverse(v), high + 0xFFFF * TWO_TO_36, 4096, low);
  }

  lemma {:induction false} SixteenToTwelve()
    ensures Power(16, 12) == TWO_TO_48
  {
    assert Power(16, 3) == 4096;
    assert Power(16, 6) == 16777216;
    assert Power(16, 9) == 68719476736;
  }

  /**
   The segment can be decoded: complemented, it is the clock modulo 2^36 followed by the counter modulo 2^12.
   */
  lemma {:induction false} ClockIsRecovered(nowMilli: int, counter: nat)
    ensures var v := Value(HexDigits(InvertedTimestampHex(nowMilli, counter)), 16);
            && v < TWO_TO_48
            && TWO_TO_48 - 1 - v == (nowMilli % TWO_TO_36) * 4096 + counter % 4096
            && Inverse(v) % 4096 == counter % 4096
  {
    SixteenToTwelve();
    var current := Current(nowMilli, counter);
    HexTextValue(Inverse(current) % TWO_TO_48, 12);
    CurrentLow(nowMilli, counter);
    InverseLow(current);
    InverseCounter(Inverse(current) % TWO_TO_48, nowMilli % TWO_TO_36, counter % 4096);
  }

  /** The order of strings, for two of one length. */
  ghost predicate TextPrecedes(a: string, b: string)
    requires |a| == |b|
  {
    exists k :: 0 <= k < |a| && a[..k] == b[..k] && a[k] < b[k]
  }

  /** Lower-case hex texts are ordered as their digits are. */
  lemma {:induction false} HexOrderIsTextOrder(a: string, b: string)
    requires |a| == |b| && (forall i :: 0 <= i < |a| ==> IsLowerHex(a[i]) && IsLowerHex(b[i]))
    requires Precedes(HexDigits(a), HexDigits(b))
    ensures TextPrecedes(a, b)
  {
    var k :| 0 <= k < |a| && HexDigits(a)[..k] == HexDigits(b)[..k] && HexDigits(a)[k] < HexDigits(b)[k];
    forall i | 0 <= i < k
      ensures a[i] == b[i]
    {
      assert HexDigits(a)[..k][i] == HexDigits(b)[..k][i];
    }
    assert a[..k] == b[..k];
  }

  /** A later millisecond of the same 2^36 has the segment that sorts first as a text, so new sessions come in front. */
  lemma {:induction false} LaterComesFirst(earlier: int, later: int, counter: nat, counter': nat)
    requires earlier / TWO_TO_36 == later / TWO_TO_36 && earlier < later
    ensures TextPrecedes(InvertedTimestampHex(later, counter'), InvertedTimestampHex(earlier, counter))
  {
    var a, b := InvertedTimestampHex(later, counter'), InvertedTimestampHex(earlier, counter);
    ClockIsRecovered(earlier, counter);
    ClockIsRecovered(later, counter');
    SmallerComesFirst(HexDigits(a), HexDigits(b), 16);
    HexOrderIsTextOrder(a, b);
  }

  // ---------- Whole ids ----------

  const PREFIX := "ses_"

  /** What the free tier accepts: the official shape, and a counter in the accepted window. */
  predicate IsSessionId(value: string) {
    && |value| == 30 && value[..4] == PREFIX
    && (forall i :: 4 <= i < 16 ==> IsHex(value[i]))
    && (forall i :: 16 <= i < 30 ==> IsBase62(value[i]))
    && Inverse(Value(HexDigits(value[4..16]), 16)) % 4096 <= COUNTER_MAX
  }

  method IsOpenCodeFreeSessionID(value: string) returns (ok: bool)
    ensures ok == IsSessionId(value)
  {
    if |value| < 4 || value[..4] != PREFIX {
      return false;
    }
    var body := value[4..];
    if |body| != 26 {
      return false;
    }
    for i := 0 to 12
      invariant forall k :: 4 <= k < 4 + i ==> IsHex(value[k])
    {
      assert body[i] == value[4 + i];
      if !(('0' <= body[i] <= '9') || ('a' <= body[i] <= 'f') || ('A' <= body[i] <= 'F')) {
        return false;
      }
    }
    for i := 12 to 26
      invariant forall k :: 16 <= k < 4 + i ==> IsBase62(value[k])
    {
      assert body[i] == value[4 + i];
      if !(('0' <= body[i] <= '9') || ('A' <= body[i] <= 'Z') || ('a' <= body[i] <= 'z')) {
        return false;
      }
    }
    assert body[..12] == value[4..16];
    var inverted := Value(HexDigits(body[..12]), 16);
    ok := Inverse(inverted) % (COUNTER_MASK + 1) <= COUNTER_MAX;
  }

  /** The value of three more digits. */
  lemma {:induction false} LastThree(digits: seq<nat>, a: nat, b: nat, c: nat)
    ensures Value(digits + [a, b, c], 16) == Value(digits, 16) * 4096 + a * 256 + b * 16 + c
  {
    OneMore(digits, a);
    OneMore(digits + [a], b);
    OneMore(digits + [a] + [b], c);
    assert digits + [a] + [b] + [c] == digits + [a, b, c];
  }

  lemma {:induction false} OneMore(digits: seq<nat>, d: nat)
    ensures Value(digits + [d], 16) == Value(digits, 16) * 16 + d
  {
    assert (digits + [d])[..|digits|] == digits;
  }

  /** In the accepted window the last three hex digits are at least `fc0`: a first digit 15 and a second from 12 on. */
  lemma {:induction false} WindowIff(segment: string)
    requires |segment| == 12
    ensures Inverse(Value(HexDigits(segment), 16)) % 4096 <= COUNTER_MAX
       <==> HexDigit(segment[9]) == 15 && HexDigit(segment[10]) >= 12
  {
    var digits := HexDigits(segment);
    var a, b, c := HexDigit(segment[9]), HexDigit(segment[10]), HexDigit(segment[11]);
    assert digits == digits[..9] + [a, b, c];
    LastThree(digits[..9], a, b, c);
    WindowArithmetic(Value(digits[..9], 16), a * 256 + b * 16 + c);
  }

  lemma {:induction false} WindowArithmetic(high: nat, low: nat)
    requires low < 4096
    ensures Inverse(high * 4096 + low) % 4096 == 4095 - low
  {
    assert Inverse(high * 4096 + low) == 4096 * (TWO_TO_64 / 4096 - 1 - high) + (4095 - low);
  }

  /** An accepted id, letter by letter. */
  lemma {:induction false} AcceptedIff(value: string)
    ensures IsSessionId(value)
       <==> && |value| == 30 && value[..4] == "ses_"
            && (forall i :: 4 <= i < 16 ==> value[i] in HEX || value[i] in UPPER_HEX)
            && (forall i :: 16 <= i < 30 ==> value[i] in ALPHABET)
            && value[13] in "fF" && value[14] in "cdefCDEF"
  {
    if |value| == 30 {
      var segment := value[4..16];
      WindowIff(segment);
      forall i | 0 <= i < 30
        ensures IsHex(value[i]) <==> value[i] in HEX || value[i] in UPPER_HEX
        ensures IsBase62(value[i]) <==> value[i] in ALPHABET
      {
        HexIs(value[i]);
        AlphabetIs(value[i]);
      }
      assert segment[9] == value[13] && segment[10] == value[14];
      FirstDigits(value[13], value[14]);
    }
  }

  lemma {:induction false} FirstDigits(a: char, b: char)
    ensures HexDigit(a) == 15 <==> a in "fF"
    ensures HexDigit(b) >= 12 <==> b in "cdefCDEF"
  {
  }

  /** An id made from a clock segment is accepted exactly when its counter is in the window. */
  lemma {:induction false} MintedIsAcceptedIff(nowMilli: int, counter: nat, tail: string)
    requires |tail| == 14 && AllBase62(tail)
    ensures IsSessionId(PREFIX + InvertedTimestampHex(nowMilli, counter) + tail) <==> counter % 4096 <= COUNTER_MAX
  {
    var segment := InvertedTimestampHex(nowMilli, counter);
    var id := PREFIX + segment + tail;
    ClockIsRecovered(nowMilli, counter);
    assert id[..4] == PREFIX && id[4..16] == segment && id[16..] == tail;
    forall i | 4 <= i < 16
      ensures IsHex(id[i])
    {
      assert id[i] == segment[i - 4];
    }
    forall i | 16 <= i < 30
      ensures IsBase62(id[i])
    {
      assert id[i] == tail[i - 16];
    }
  }

  lemma {:induction false} DerivedIsAccepted(nowMilli: int, tail: string, digest: seq<Byte>)
    requires |digest| == 32 && Encodes(tail, digest[6..16], 14)
    ensures var segment := InvertedTimestampHex(nowMilli, 1);
            IsSessionId(PREFIX + segment + tail) && Identifies(PREFIX + segment + tail, segment, digest)
  {
    var segment := InvertedTimestampHex(nowMilli, 1);
    MintedIsAcceptedIff(nowMilli, 1, tail);
    var id := PREFIX + segment + tail;
    assert id[..16] == PREFIX + segment && id[16..] == tail;
  }

  lemma {:induction false} DerivedCounter(nowMilli: int, tail: string, id: string)
    requires id == PREFIX + InvertedTimestampHex(nowMilli, 1) + tail
    ensures |id| >= 16 && Inverse(Value(HexDigits(id[4..16]), 16)) % 4096 == 1
  {
    assert id[4..16] == InvertedTimestampHex(nowMilli, 1);
    ClockIsRecovered(nowMilli, 1);
  }

  /** The segment a process mints once and shares among its sessions. */
  class SessionClock {
    var segment: Option<string>

    ghost predicate Valid()
      reads this
    {
      segment.Some? ==> exists now :: segment.value == InvertedTimestampHex(now, 1)
    }

    constructor ()
      ensures Valid() && segment == None
    {
      segment := None;
    }

    method ClockSegment(nowMilli: int) returns (text: string)
      requires Valid()
      modifies this
      ensures Valid() && segment == Some(text)
      ensures text == if old(segment).Some? then old(segment).value else InvertedTimestampHex(nowMilli, 1)
    {
      if segment == None {
        segment := Some(InvertedTimestampHex(nowMilli, 1));
      }
      return segment.value;
    }

    /** `deriveOpenCodeFreeSessionID`; `digest` is the SHA-256 of the identity. */
    method Derive(nowMilli: int, digest: seq<Byte>) returns (id: string)
      requires Valid() && |digest| == 32
      modifies this
      ensures Valid() && segment.Some? && (old(segment).Some? ==> segment == old(segment))
      ensures IsSessionId(id) && Identifies(id, segment.value, digest)
      ensures Inverse(Value(HexDigits(id[4..16]), 16)) % 4096 == 1
    {
      var base62Part := EncodeBase62(digest[6..16], 14);
      var clock := ClockSegment(nowMilli);
      ghost var now :| clock == InvertedTimestampHex(now, 1);
      DerivedIsAccepted(now, base62Part, digest);
      id := PREFIX + clock + base62Part;
      DerivedCounter(now, base62Part, id);
    }

    /** `openCodeFreeSessionID`: the first acceptable id the client sent along, or else a derived one. */
    method SessionIdFor(headers: seq<string>, nowMilli: int, digest: seq<Byte>) returns (id: string)
      requires Valid() && |digest| == 32
      modifies this
      ensures Valid() && IsSessionId(id)
      ensures (exists i :: 0 <= i < |headers| && IsSessionId(Trim(headers[i]))) ==>
                exists i :: 0 <= i < |headers| && id == Trim(headers[i])
                            && forall k :: 0 <= k < i ==> !IsSessionId(Trim(headers[k]))
      ensures (forall i :: 0 <= i < |headers| ==> !IsSessionId(Trim(headers[i]))) ==>
                segment.Some? && Identifies(id, segment.value, digest)
    {
      for i := 0 to |headers|
        invariant Valid() && segment == old(segment)
        invariant forall k :: 0 <= k < i ==> !IsSessionId(Trim(headers[k]))
      {
        var value := Trim(headers[i]);
        var ok := IsOpenCodeFreeSessionID(value);
        if ok {
          return value;
        }
      }
      id := Derive(nowMilli, digest);
    }
  }

  /** The id has this segment, and encodes this digest after it. */
  predicate Identifies(id: string, segment: string, digest: seq<Byte>)
    requires |digest| == 32
  {
    && |segment| == 12 && |id| == 30 && id[..16] == PREFIX + segment
    && Encodes(id[16..], digest[6..16], 14)
  }

  /** Ids of one process are the same exactly when the ten digest bytes they are made from are. */
  lemma {:induction false} SameIdIff(id: string, id': string, segment: string, digest: seq<Byte>, digest': seq<Byte>)
    requires |digest| == |digest'| == 32
    requires Identifies(id, segment, digest) && Identifies(id', segment, digest')
    ensures id == id' <==> digest[6..16] == digest'[6..16]
  {
    TenBytesAreRecovered(digest[6..16], digest'[6..16], id[16..], id'[16..]);
    assert id == id[..16] + id[16..] && id' == id'[..16] + id'[16..];
  }
}
