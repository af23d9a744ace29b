/** Decimal and hexadecimal numerals: printing, reading back, and where a numeral ends. */
module Text {
  import opened Common

  predicate IsDigit(c: char) {
    '0' <= c <= '9'
  }

  predicate AllDigits(s: string) {
    forall i :: 0 <= i < |s| ==> IsDigit(s[i])
  }

  /** The text that follows a numeral does not continue it. */
  predicate NotDigitNext(s: string) {
    s == "" || !IsDigit(s[0])
  }

  function NatText(n: nat): (s: string)
    ensures s != "" && AllDigits(s)
  {
    if n < 10 then [(n as char) + '0'] else NatText(n / 10) + [((n % 10) as char) + '0']
  }

  function ReadNat(s: string): int {
    if s == "" then 0 else 10 * ReadNat(s[..|s| - 1]) + (s[|s| - 1] as int - '0' as int)
  }

  lemma {:induction false} NatTextReads(n: nat)
    ensures ReadNat(NatText(n)) == n
  {
    var s := NatText(n);
    if n < 10 {
      assert s[..0] == "";
    } else {
      NatTextReads(n / 10);
      assert s[..|s| - 1] == NatText(n / 10);
    }
  }

  /** `str(n)` and `json.dumps(n)` for an integer. */
  function IntText(n: int): string {
    if n < 0 then "-" + NatText(-n) else NatText(n)
  }

  /** Two digit runs that end where the digits end are equal when the texts are. */
  lemma {:induction false} DigitRun(a: string, b: string, s: string, t: string)
    requires AllDigits(a) && AllDigits(b) && NotDigitNext(s) && NotDigitNext(t)
    requires a + s == b + t
    ensures a == b && s == t
  {
    assert a == "" ==> a + s == s;
    assert b == "" ==> b + t == t;
    if a != "" && b != "" {
      DropHead(a, b, s, t);
      DigitRun(a[1..], b[1..], s, t);
      assert a == [a[0]] + a[1..] && b == [b[0]] + b[1..];
    }
  }

  lemma DropHead(a: string, b: string, s: string, t: string)
    requires a != "" && b != "" && a + s == b + t
    ensures a[0] == b[0] && a[1..] + s == b[1..] + t
  {
    assert a[1..] + s == (a + s)[1..] && b[1..] + t == (b + t)[1..];
    assert a[0] == (a + s)[0] && b[0] == (b + t)[0];
  }

  /** Fixed-width fronts can be cut off. */
  lemma CutFront(a: string, b: string, s: string, t: string)
    requires |a| == |b| && a + s == b + t
    ensures a == b && s == t
  {
    assert a == (a + s)[..|a|] && b == (b + t)[..|b|];
    assert s == (a + s)[|a|..] && t == (b + t)[|b|..];
  }

  lemma IntTextSign(n: int)
    ensures IntText(n) != "" && (IntText(n)[0] == '-' <==> n < 0)
    ensures IntText(n)[0] == '-' || IsDigit(IntText(n)[0])
  {
    assert IsDigit(NatText(if n < 0 then -n else n)[0]);
  }

  lemma NatTextDecodes(m: nat, n: nat, s: string, t: string)
    requires NotDigitNext(s) && NotDigitNext(t) && NatText(m) + s == NatText(n) + t
    ensures m == n && s == t
  {
    DigitRun(NatText(m), NatText(n), s, t);
    NatTextReads(m);
    NatTextReads(n);
  }

  /** An integer numeral can be read off the front of a text. */
  lemma IntTextDecodes(m: int, n: int, s: string, t: string)
    requires NotDigitNext(s) && NotDigitNext(t) && IntText(m) + s == IntText(n) + t
    ensures m == n && s == t
  {
    var a, b := IntText(m), IntText(n);
    IntTextSign(m);
    IntTextSign(n);
    DropHead(a, b, s, t);
    if m < 0 {
      NatTextDecodes(-m, -n, s, t);
    } else {
      NatTextDecodes(m, n, s, t);
    }
  }

  // ------------------------------------------------------------- comparison of digests

  predicate IsAscii(s: string) {
    forall i :: 0 <= i < |s| ==> s[i] as int < 128
  }

  lemma AsciiEnds()
    ensures IsAscii("\U{7F}") && !IsAscii("\U{80}")
  {
    assert "\U{80}"[0] as int == 0x80;
  }

  /** `constant_time_equal`: comparing text with a character beyond ASCII raises. */
  function ConstantTimeEqual(a: string, b: string): Option<bool> {
    if IsAscii(a) && IsAscii(b) then Some(a == b) else None
  }

  // ------------------------------------------------------------------- hexadecimal

  const HEX_DIGITS: string := "0123456789abcdef"

  /** The value of a lower-case hexadecimal digit. */
  function HexValue(c: char): int {
    if '0' <= c <= '9' then c as int - '0' as int else c as int - 'a' as int + 10
  }

  predicate IsHexDigit(c: char) {
    '0' <= c <= '9' || 'a' <= c <= 'f'
  }

  predicate IsHex(s: string) {
    forall i :: 0 <= i < |s| ==> IsHexDigit(s[i])
  }

  /** `int(s, 16)` on lower-case hexadecimal text. */
  function ReadHex(s: string): (n: int)
    ensures IsHex(s) ==> 0 <= n
  {
    if s == "" then 0 else 16 * ReadHex(s[..|s| - 1]) + HexValue(s[|s| - 1])
  }

  lemma HexValueInjective(c: char, d: char)
    requires IsHexDigit(c) && IsHexDigit(d)
    ensures 0 <= HexValue(c) < 16
    ensures HexValue(c) == HexValue(d) ==> c == d
  {}

  /** Texts of equal length with equal values are equal. */
  lemma {:induction false} ReadHexInjective(a: string, b: string)
    requires |a| == |b| && IsHex(a) && IsHex(b) && ReadHex(a) == ReadHex(b)
    ensures a == b
  {
    if a != "" {
      var m := |a| - 1;
      HexValueInjective(a[m], b[m]);
      HexValueInjective(b[m], a[m]);
      var x, y, c, d := ReadHex(a[..m]), ReadHex(b[..m]), HexValue(a[m]), HexValue(b[m]);
      assert 16 * x + c == 16 * y + d;
      assert x == y && c == d;
      ReadHexInjective(a[..m], b[..m]);
      assert a == a[..m] + [a[m]] && b == b[..m] + [b[m]];
    }
  }

  function Pow16(n: nat): (m: nat)
    ensures m >= 1
  {
    if n == 0 then 1 else 16 * Pow16(n - 1)
  }

  lemma {:induction false} ReadHexBound(s: string)
    requires IsHex(s)
    ensures 0 <= ReadHex(s) < Pow16(|s|)
  {
    if s != "" {
      ReadHexBound(s[..|s| - 1]);
      HexValueInjective(s[|s| - 1], s[|s| - 1]);
    }
  }

  lemma ReadHexNext(s: string, c: char)
    ensures ReadHex(s + [c]) == 16 * ReadHex(s) + HexValue(c)
  {
    assert (s + [c])[..|s|] == s;
  }

  lemma ShiftDigit(x: int, y: int, p: int, d: int)
    ensures 16 * (x * p + y) + d == x * (16 * p) + (16 * y + d)
  {}

  /** The value of a text is the values of its two parts, the first shifted by the second. */
  lemma {:induction false} ReadHexConcat(a: string, b: string)
    ensures ReadHex(a + b) == ReadHex(a) * Pow16(|b|) + ReadHex(b)
  {
    if b == "" {
      assert a + b == a;
    } else {
      var m, front := |b| - 1, b[..|b| - 1];
      ReadHexConcat(a, front);
      ReadHexNext(a + front, b[m]);
      assert (a + front) + [b[m]] == a + b;
      ShiftDigit(ReadHex(a), ReadHex(front), Pow16(m), HexValue(b[m]));
    }
  }

  /** `format(u, '0nx')`: n lower-case hexadecimal digits. */
  function HexText(u: nat, n: nat): (s: string)
    ensures |s| == n && IsHex(s)
  {
    if n == 0 then "" else HexText(u / 16, n - 1) + [HEX_DIGITS[u % 16]]
  }

  lemma HexDigitValue(d: nat)
    requires d < 16
    ensures HexValue(HEX_DIGITS[d]) == d
  {}

  lemma {:induction false} HexTextReads(u: nat, n: nat)
    requires u < Pow16(n)
    ensures ReadHex(HexText(u, n)) == u
  {
    if n > 0 {
      HexTextReads(u / 16, n - 1);
      HexDigitValue(u % 16);
      assert HexText(u, n)[..n - 1] == HexText(u / 16, n - 1);
    }
  }

  lemma HexTextInjective(u: nat, v: nat, n: nat)
    requires u < Pow16(n) && v < Pow16(n) && HexText(u, n) == HexText(v, n)
    ensures u == v
  {
    HexTextReads(u, n);
    HexTextReads(v, n);
  }
}
