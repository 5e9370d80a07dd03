/** The parts of the source language's text handling that the daemon relies on. */
module Text {
  import opened Common

  newtype byte = x: int | 0 <= x < 256

  type Bytes = seq<byte>

  /** The characters that strip() removes and int() ignores around a number. */
  predicate IsSpace(c: char) {
    || '\t' <= c <= '\r' || '\U{1c}' <= c <= ' ' || c == '\U{85}' || c == '\U{a0}' || c == '\U{1680}'
    || '\U{2000}' <= c <= '\U{200a}' || c == '\U{2028}' || c == '\U{2029}' || c == '\U{202f}' || c == '\U{205f}' || c == '\U{3000}'
  }

  function StripLeft(s: string): (r: string)
    ensures r == [] || !IsSpace(r[0])
  {
    if s != [] && IsSpace(s[0]) then StripLeft(s[1..]) else s
  }

  function StripRight(s: string): (r: string)
    ensures r == [] || !IsSpace(r[|r| - 1])
  {
    if s != [] && IsSpace(s[|s| - 1]) then StripRight(s[..|s| - 1]) else s
  }

  function Strip(s: string): string
  {
    StripRight(StripLeft(s))
  }

  lemma {:induction false} StripLeftIs(s: string) returns (i: nat)
    ensures i <= |s| && StripLeft(s) == s[i..] && forall k :: 0 <= k < i ==> IsSpace(s[k])
  {
    i := 0;
    if s != [] && IsSpace(s[0]) {
      i := StripLeftIs(s[1..]);
      assert forall k :: 1 <= k <= i ==> s[k] == s[1..][k - 1];
      i := i + 1;
    }
  }

  lemma {:induction false} StripRightIs(s: string) returns (j: nat)
    ensures j <= |s| && StripRight(s) == s[..j] && forall k :: j <= k < |s| ==> IsSpace(s[k])
  {
    j := |s|;
    if s != [] && IsSpace(s[|s| - 1]) {
      j := StripRightIs(s[..|s| - 1]);
      assert forall k :: j <= k < |s| - 1 ==> s[k] == s[..|s| - 1][k];
    }
  }

  /** Stripping takes the spaces off both ends, all of them, and nothing else. */
  lemma StripIs(s: string) returns (i: nat, j: nat)
    ensures i <= j <= |s| && Strip(s) == s[i..j]
    ensures forall k :: 0 <= k < i || j <= k < |s| ==> IsSpace(s[k])
    ensures Strip(s) != [] ==> !IsSpace(s[i]) && !IsSpace(s[j - 1])
  {
    i := StripLeftIs(s);
    var n := StripRightIs(StripLeft(s));
    j := i + n;
    assert s[i..][..n] == s[i..j];
    assert forall k :: j <= k < |s| ==> s[k] == s[i..][k - i];
  }

  lemma StripTrimmed(s: string)
    requires s == [] || (!IsSpace(s[0]) && !IsSpace(s[|s| - 1]))
    ensures Strip(s) == s
  {
  }

  predicate IsControl(c: char) {
    c as int < 0x20 || c as int == 0x7F
  }

  predicate HasControl(s: string) {
    exists i :: 0 <= i < |s| && IsControl(s[i])
  }

  function Truncate(s: string, n: nat): string {
    if |s| <= n then s else s[..n]
  }

  predicate IsDigit(c: char) {
    '0' <= c <= '9'
  }

  predicate AllDigits(s: string) {
    forall i :: 0 <= i < |s| ==> IsDigit(s[i])
  }

  function DigitValue(c: char): nat
    requires IsDigit(c)
  {
    c as int - '0' as int
  }

  function DigitChar(d: nat): (c: char)
    requires d < 10
    ensures IsDigit(c) && DigitValue(c) == d
  {
    (d + '0' as int) as char
  }

  function Value(s: string): nat
    requires AllDigits(s)
  {
    if s == [] then 0 else 10 * Value(s[..|s| - 1]) + DigitValue(s[|s| - 1])
  }

  function Digits(n: nat): (s: string)
    ensures s != [] && AllDigits(s)
  {
    if n < 10 then [DigitChar(n)] else Digits(n / 10) + [DigitChar(n % 10)]
  }

  /** Decimal digits without a superfluous leading zero. */
  predicate Plain(s: string) {
    s != [] && AllDigits(s) && (s[0] == '0' ==> |s| == 1)
  }

  lemma {:induction false} ValueOfDigits(n: nat)
    ensures Plain(Digits(n)) && Value(Digits(n)) == n
    ensures n > 0 ==> Digits(n)[0] != '0'
  {
    if n >= 10 {
      ValueOfDigits(n / 10);
    } else {
      assert Digits(n)[..0] == [];
    }
  }

  lemma {:induction false} DigitsOfValue(s: string)
    requires Plain(s)
    ensures Digits(Value(s)) == s
    ensures s[0] != '0' ==> Value(s) > 0
  {
    var n := |s| - 1;
    if n == 0 {
      assert s[..0] == [];
    } else {
      assert s[..n][0] == s[0];
      DigitsOfValue(s[..n]);
      assert Value(s) / 10 == Value(s[..n]) && Value(s) % 10 == DigitValue(s[n]);
      assert s == s[..n] + [s[n]];
    }
  }

  /** How an integer is printed. */
  function Decimal(n: int): string {
    if n < 0 then "-" + Digits(-n) else Digits(n)
  }

  function Signed(negative: bool, n: nat): int {
    var v: int := n;
    if negative then -v else v
  }

  /** The integer that `s` is the printed form of. */
  function Undecimal(s: string): Option<int> {
    if |s| > 1 && s[0] == '-' then
      if Plain(s[1..]) && s[1] != '0' then Some(Signed(true, Value(s[1..]))) else None
    else if Plain(s) then Some(Value(s))
    else None
  }

  lemma UndecimalIffDecimal(s: string, n: int)
    ensures Undecimal(s) == Some(n) <==> s == Decimal(n)
  {
    ValueOfDigits(Abs(n));
    if n < 0 {
      assert ("-" + Digits(-n))[1..] == Digits(-n);
    }
    if |s| > 1 && s[0] == '-' && Plain(s[1..]) {
      DigitsOfValue(s[1..]);
      assert s == "-" + s[1..];
    } else if Plain(s) {
      DigitsOfValue(s);
    }
  }

  const MAX_INT_DIGITS := 4300  // longer digit strings are refused by int()

  /** Digits, single underscores allowed between two of them. */
  predicate Grouped(s: string) {
    && s != [] && IsDigit(s[0]) && IsDigit(s[|s| - 1])
    && (forall i :: 0 <= i < |s| ==> IsDigit(s[i]) || s[i] == '_')
    && (forall i :: 0 < i < |s| && s[i] == '_' ==> s[i - 1] != '_')
  }

  function ParseDigits(body: string): Option<nat> {
    if !Grouped(body) then None
    else
      var digits := Without(body, '_');
      assert forall i :: 0 <= i < |digits| ==> digits[i] in digits;
      if |digits| > MAX_INT_DIGITS then None else Some(Value(digits))
  }

  function ParseSigned(t: string): Option<int> {
    var signed := t != [] && (t[0] == '-' || t[0] == '+');
    match ParseDigits(if signed then t[1..] else t)
    case None => None
    case Some(n) => Some(Signed(signed && t[0] == '-', n))
  }

  /** int(s, 10) on ASCII text: white space around, one sign, grouped digits. */
  function ParseInt(s: string): Option<int> {
    ParseSigned(Strip(s))
  }

  /** What int() reads of stripped text: one sign at most, then grouped digits, not too many of them. */
  ghost predicate Reads(t: string, sign: string, body: string, n: int) {
    && sign in {"", "+", "-"} && t == sign + body && Grouped(body)
    && var digits := Without(body, '_');
       |digits| <= 4300 && AllDigits(digits) && Abs(n) == Value(digits) && (if sign == "-" then n <= 0 else n >= 0)
  }

  lemma ReadsBody(body: string, n: nat)
    ensures ParseDigits(body) == Some(n) <==> Reads(body, "", body, n)
  {
    assert "" + body == body;
    var digits := Without(body, '_');
    assert forall i :: 0 <= i < |digits| ==> digits[i] in digits;
  }

  lemma SignRead(t: string, sign: string, body: string, n: int)
    requires Reads(t, sign, body, n)
    ensures ParseSigned(t) == Some(n)
  {
    assert "" + body == body;
    ReadsBody(body, Abs(n));
    if sign == "" {
      assert t == body && IsDigit(t[0]);
    } else {
      assert t[0] == sign[0] && t[1..] == body;
    }
  }

  lemma SignReads(t: string, n: int) returns (sign: string, body: string)
    requires ParseSigned(t) == Some(n)
    ensures Reads(t, sign, body, n)
  {
    var signed := t != [] && (t[0] == '-' || t[0] == '+');
    sign, body := if signed then [t[0]] else [], if signed then t[1..] else t;
    ReadsBody(body, Abs(n));
    assert t == sign + body;
  }

  lemma ParseIntIff(s: string, n: int)
    ensures ParseInt(s) == Some(n) <==> exists sign, body :: Reads(Strip(s), sign, body, n)
  {
    var t := Strip(s);
    if ParseSigned(t) == Some(n) {
      var sign, body := SignReads(t, n);
    }
    if sign, body :| Reads(t, sign, body, n) {
      SignRead(t, sign, body, n);
    }
  }

  lemma DigitsStripped(s: string, sign: string)
    requires s != [] && AllDigits(s) && (sign == "" || sign == "-")
    ensures Strip(sign + s) == sign + s
  {
    var t := sign + s;
    assert t[|t| - 1] == s[|s| - 1] && IsDigit(s[|s| - 1]);
    assert t[0] == '-' || IsDigit(t[0]);
    StripTrimmed(t);
  }

  lemma ParseOwnDigits(n: nat)
    requires |Digits(n)| <= MAX_INT_DIGITS
    ensures ParseDigits(Digits(n)) == Some(n)
  {
    assert !IsDigit('_');
    WithoutAbsent(Digits(n), '_');
    ValueOfDigits(n);
  }

  lemma DecimalStripped(n: int)
    ensures Strip(Decimal(n)) == Decimal(n)
  {
    if n < 0 {
      DigitsStripped(Digits(-n), "-");
    } else {
      DigitsStripped(Digits(n), "");
      assert "" + Digits(n) == Digits(n);
    }
  }

  lemma ParseSignedOfDecimal(n: int)
    requires |Digits(Abs(n))| <= MAX_INT_DIGITS
    ensures ParseSigned(Decimal(n)) == Some(n)
  {
    ParseOwnDigits(Abs(n));
    if n < 0 {
      assert Decimal(n)[1..] == Digits(-n);
    } else {
      assert IsDigit(Digits(n)[0]);
    }
  }

  /** A printed integer is read back as itself. */
  lemma ParseIntOfDecimal(n: int)
    requires |Digits(Abs(n))| <= MAX_INT_DIGITS
    ensures ParseInt(Decimal(n)) == Some(n)
  {
    DecimalStripped(n);
    ParseSignedOfDecimal(n);
  }

  predicate IsHexChar(c: char) {
    '0' <= c <= '9' || 'a' <= c <= 'f'
  }

  lemma HexDigit(c: char)
    ensures IsHexChar(c) <==> c in "0123456789abcdef"
  {
    var digits := "0123456789abcdef";
    if IsHexChar(c) {
      var i := if c <= '9' then c as int - '0' as int else c as int - 'a' as int + 10;
      assert digits[i] == c;
    }
  }

  predicate IsLowerHex(s: string, n: nat) {
    |s| == n && forall i :: 0 <= i < |s| ==> IsHexChar(s[i])
  }

  predicate IsAscii(s: string) {
    forall i :: 0 <= i < |s| ==> s[i] as int < 128
  }

  function Ascii(s: string): (b: Bytes)
    requires IsAscii(s)
    ensures |b| == |s| && forall i :: 0 <= i < |s| ==> b[i] as int == s[i] as int
  {
    seq(|s|, i requires 0 <= i < |s| => s[i] as int as byte)
  }

  /** Six low bits behind a continuation mark. */
  function Low6(n: nat): byte {
    (0x80 + n % 64) as byte
  }

  function Utf8Char(c: char): (b: Bytes)
    ensures 1 <= |b| <= 4
  {
    var n := c as int;
    var h := n / 64;
    var g := h / 64;
    if n < 0x80 then [n as byte]
    else if n < 0x800 then [(0xC0 + h) as byte, Low6(n)]
    else if n < 0x1_0000 then [(0xE0 + g) as byte, Low6(h), Low6(n)]
    else [(0xF0 + g / 64) as byte, Low6(g), Low6(h), Low6(n)]
  }

  function Utf8(s: string): Bytes {
    if s == [] then [] else Utf8Char(s[0]) + Utf8(s[1..])
  }

  /** How many bytes a character takes, told by the first of them. */
  function Utf8Length(first: byte): nat {
    if first < 0x80 then 1 else if first < 0xE0 then 2 else if first < 0xF0 then 3 else 4
  }

  lemma Utf8FirstByte(c: char)
    ensures |Utf8Char(c)| == Utf8Length(Utf8Char(c)[0])
  {
  }

  function Bits(b: byte): int {
    b as int % 64
  }

  /** The character's number, read off its bytes. */
  function Utf8Value(b: Bytes): int
    requires 1 <= |b| <= 4
  {
    if |b| == 1 then b[0] as int
    else if |b| == 2 then (b[0] as int - 0xC0) * 64 + Bits(b[1])
    else if |b| == 3 then ((b[0] as int - 0xE0) * 64 + Bits(b[1])) * 64 + Bits(b[2])
    else (((b[0] as int - 0xF0) * 64 + Bits(b[1])) * 64 + Bits(b[2])) * 64 + Bits(b[3])
  }

  lemma Low6Bits(n: nat)
    ensures Bits(Low6(n)) == n % 64 && n == n / 64 * 64 + Bits(Low6(n))
  {
  }

  lemma ValueOfUtf8(c: char)
    ensures Utf8Value(Utf8Char(c)) == c as int
  {
    var n := c as int;
    Low6Bits(n);
    Low6Bits(n / 64);
    Low6Bits(n / 64 / 64);
  }

  lemma Utf8CharUnique(a: char, b: char, s: Bytes, t: Bytes)
    requires Utf8Char(a) + s == Utf8Char(b) + t
    ensures a == b && s == t
  {
    var x, y := Utf8Char(a), Utf8Char(b);
    assert x[0] == (x + s)[0] && y[0] == (y + t)[0];
    Utf8FirstByte(a);
    Utf8FirstByte(b);
    assert x == (x + s)[..|x|] && y == (y + t)[..|y|];
    assert s == (x + s)[|x|..] && t == (y + t)[|y|..];
    ValueOfUtf8(a);
    ValueOfUtf8(b);
  }

  /** No two strings have the same encoding. */
  lemma {:induction false} Utf8Injective(a: string, b: string)
    requires Utf8(a) == Utf8(b)
    ensures a == b
  {
    if a != [] && b != [] {
      Utf8CharUnique(a[0], b[0], Utf8(a[1..]), Utf8(b[1..]));
      Utf8Injective(a[1..], b[1..]);
      assert a == [a[0]] + a[1..] && b == [b[0]] + b[1..];
    }
  }

  lemma {:induction false} Utf8OfAscii(s: string)
    requires IsAscii(s)
    ensures Utf8(s) == Ascii(s)
  {
    if s != [] {
      Utf8OfAscii(s[1..]);
      var whole, rest := Ascii(s), Ascii(s[1..]);
      assert Utf8Char(s[0]) == [whole[0]];
      assert whole[1..] == rest;
      assert whole == [whole[0]] + rest;
    }
  }

  function FromBytes(b: Bytes): (s: string)
    ensures |s| == |b| && forall i :: 0 <= i < |s| ==> b[i] as int == s[i] as int
  {
    seq(|b|, i requires 0 <= i < |b| => b[i] as int as char)
  }
}
