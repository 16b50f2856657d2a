/** Octet strings and the small text operations that every component of the server shares.
    A C++ `std::string`, `std::string_view` or `std::vector<std::uint8_t>` is a `Bytes`. */
module Octets {
  import opened Wrappers

  type Byte = b: int | 0 <= b < 256
  type Bytes = seq<Byte>

  const TAB: Byte := 9
  const LF: Byte := 10
  const CR: Byte := 13
  const SPACE: Byte := 32
  const COMMA: Byte := 44
  const COLON: Byte := 58
  const SEMICOLON: Byte := 59
  const CRLF: Bytes := [CR, LF]

  /** The largest value of a 64-bit `std::size_t`. */
  const SIZE_MAX: nat := 0xFFFF_FFFF_FFFF_FFFF

  /** The octets of an ASCII literal. */
  function Ascii(text: string): (bytes: Bytes)
    ensures |bytes| == |text|
    ensures forall i :: 0 <= i < |text| ==> bytes[i] == text[i] as int % 256
  {
    seq(|text|, i requires 0 <= i < |text| => text[i] as int % 256)
  }

  // ----- searching

  /** Where `b` first occurs in `s`. */
  function Find(s: Bytes, b: Byte): (r: Option<nat>)
    ensures r.Some? ==> r.value < |s| && s[r.value] == b && b !in s[..r.value]
    ensures r.None? ==> b !in s
  {
    if s == [] then None
    else if s[0] == b then Some(0)
    else
      match Find(s[1..], b)
      case None => None
      case Some(i) =>
        assert s[..i + 1] == [s[0]] + s[1..][..i];
        Some(i + 1)
  }

  predicate CrlfAt(s: Bytes, i: int) {
    0 <= i && i + 1 < |s| && s[i] == CR && s[i + 1] == LF
  }

  /** Where CR LF first occurs in `s`. */
  function FindCrlf(s: Bytes): (r: Option<nat>)
    ensures r.Some? ==> CrlfAt(s, r.value) && forall j :: 0 <= j < r.value ==> !CrlfAt(s, j)
    ensures r.None? ==> forall j :: !CrlfAt(s, j)
  {
    if |s| < 2 then None
    else if CrlfAt(s, 0) then Some(0)
    else
      match FindCrlf(s[1..])
      case None =>
        assert forall j :: CrlfAt(s, j) ==> CrlfAt(s[1..], j - 1);
        None
      case Some(i) =>
        assert forall j :: 0 < j && CrlfAt(s, j) ==> CrlfAt(s[1..], j - 1);
        Some(i + 1)
  }

  lemma FindCrlfIs(s: Bytes, i: nat)
    requires CrlfAt(s, i)
    requires forall j :: 0 <= j < i ==> !CrlfAt(s, j)
    ensures FindCrlf(s) == Some(i)
  {
  }

  lemma FindIs(s: Bytes, b: Byte, i: nat)
    requires i < |s| && s[i] == b && b !in s[..i]
    ensures Find(s, b) == Some(i)
  {
    if i > 0 {
      assert s[0] in s[..i];
      assert s[1..][..i - 1] == s[..i][1..];
      FindIs(s[1..], b, i - 1);
    }
  }

  /** A line end that has been found stays the first one when more input arrives. */
  lemma FindCrlfStable(s: Bytes, more: Bytes)
    requires FindCrlf(s).Some?
    ensures FindCrlf(s + more) == FindCrlf(s)
  {
    var i := FindCrlf(s).value;
    forall j | 0 <= j < i
      ensures !CrlfAt(s + more, j)
    {
      assert !CrlfAt(s, j);
    }
    FindCrlfIs(s + more, i);
  }

  ghost predicate WithoutCrlf(line: Bytes) {
    forall i :: !CrlfAt(line, i)
  }

  lemma LineFound(line: Bytes, rest: Bytes)
    requires WithoutCrlf(line)
    ensures var s := line + CRLF + rest;
            FindCrlf(s) == Some(|line|) && s[..|line|] == line && s[|line| + 2..] == rest
  {
    var s := line + CRLF + rest;
    forall j | 0 <= j < |line|
      ensures !CrlfAt(s, j)
    {
      assert !CrlfAt(line, j);
    }
    FindCrlfIs(s, |line|);
  }

  /** Lines, each with its CR LF, and an empty line: a header or a trailer section. */
  function Section(lines: seq<Bytes>): Bytes {
    if lines == [] then CRLF else lines[0] + CRLF + Section(lines[1..])
  }

  // ----- character classes of the "C" locale

  predicate IsSpace(b: Byte) {
    b == SPACE || 9 <= b <= 13
  }

  predicate IsDigit(b: Byte) {
    48 <= b <= 57
  }

  predicate IsUpper(b: Byte) {
    65 <= b <= 90
  }

  predicate IsAlnum(b: Byte) {
    IsDigit(b) || IsUpper(b) || 97 <= b <= 122
  }

  /** The characters of a token: letters, digits and the fifteen listed marks. */
  predicate IsTokenChar(b: Byte) {
    IsAlnum(b) || b in {33, 35, 36, 37, 38, 39, 42, 43, 45, 46, 94, 95, 96, 124, 126}
  }

  /** These are the visible characters but the delimiters (section 5.6.2 of RFC 9110). */
  lemma TokenCharsExactly(b: Byte)
    ensures IsTokenChar(b) <==> 0x21 <= b <= 0x7e && b !in Ascii("\"(),/:;<=>?@[\\]{}")
  {
    assert Ascii("\"(),/:;<=>?@[\\]{}") == [34, 40, 41, 44, 47, 58, 59, 60, 61, 62, 63, 64, 91, 92, 93, 123, 125];
  }

  predicate ValidHeaderName(name: Bytes) {
    name != [] && forall i :: 0 <= i < |name| ==> IsTokenChar(name[i])
  }

  function ToLower(b: Byte): Byte {
    if IsUpper(b) then b + 32 else b
  }

  function Lower(s: Bytes): (r: Bytes)
    ensures |r| == |s|
    ensures forall i :: 0 <= i < |s| ==> r[i] == ToLower(s[i])
  {
    seq(|s|, i requires 0 <= i < |s| => ToLower(s[i]))
  }

  // ----- trimming

  function TrimLeft(s: Bytes): Bytes {
    if s != [] && IsSpace(s[0]) then TrimLeft(s[1..]) else s
  }

  function TrimRight(s: Bytes): Bytes {
    if s != [] && IsSpace(s[|s| - 1]) then TrimRight(s[..|s| - 1]) else s
  }

  function Trim(s: Bytes): Bytes {
    TrimRight(TrimLeft(s))
  }

  /** Text that neither starts nor ends with white space is its own trimming. */
  lemma TrimIdentity(s: Bytes)
    requires s != [] ==> !IsSpace(s[0]) && !IsSpace(s[|s| - 1])
    ensures Trim(s) == s
  {
  }

  /** One leading space makes no difference. */
  lemma TrimAfterSpace(s: Bytes)
    ensures Trim([SPACE] + s) == Trim(s)
  {
    assert ([SPACE] + s)[1..] == s;
  }

  lemma {:induction false} TrimKeepsOctets(s: Bytes)
    ensures forall b: Byte :: b in Trim(s) ==> b in s
    ensures Trim(s) != [] ==> !IsSpace(Trim(s)[0]) && !IsSpace(Trim(s)[|Trim(s)| - 1])
  {
    LeftShape(s);
    RightShape(TrimLeft(s));
    hide TrimLeft, TrimRight;
  }

  /** White space in front of the rest. */
  lemma {:induction false} LeftShape(s: Bytes)
    ensures |TrimLeft(s)| <= |s|
    ensures var n := |s| - |TrimLeft(s)|; TrimLeft(s) == s[n..] && forall i :: 0 <= i < n ==> IsSpace(s[i])
    ensures TrimLeft(s) != [] ==> !IsSpace(TrimLeft(s)[0])
  {
    if s != [] && IsSpace(s[0]) {
      LeftShape(s[1..]);
      var n := |s| - |TrimLeft(s)|;
      assert forall i :: 0 < i < n ==> s[i] == s[1..][i - 1];
      assert s[1..][n - 1..] == s[n..];
    } else {
      assert s[0..] == s;
    }
  }

  lemma {:induction false} RightShape(s: Bytes)
    ensures |TrimRight(s)| <= |s|
    ensures var n := |TrimRight(s)|; TrimRight(s) == s[..n] && forall i :: n <= i < |s| ==> IsSpace(s[i])
    ensures TrimRight(s) != [] ==> !IsSpace(TrimRight(s)[|TrimRight(s)| - 1])
  {
    if s != [] && IsSpace(s[|s| - 1]) {
      RightShape(s[..|s| - 1]);
      assert s[..|s| - 1][..|TrimRight(s)|] == s[..|TrimRight(s)|];
    } else {
      assert s[..|s|] == s;
    }
  }

  lemma TrimTwice(s: Bytes)
    ensures Trim(Trim(s)) == Trim(s)
  {
    TrimKeepsOctets(s);
    TrimIdentity(Trim(s));
  }

  /** Where the trimmed text is. */
  lemma TrimmedAt(s: Bytes) returns (a: nat, b: nat)
    ensures a <= b <= |s| && Trim(s) == s[a..b]
    ensures (forall i :: 0 <= i < a ==> IsSpace(s[i])) && forall i :: b <= i < |s| ==> IsSpace(s[i])
  {
    LeftShape(s);
    RightShape(TrimLeft(s));
    a := |s| - |TrimLeft(s)|;
    b := a + |Trim(s)|;
    assert forall i :: b <= i < |s| ==> s[i] == TrimLeft(s)[i - a];
  }

  /** Text between white space that neither starts nor ends with white space is the trimming. */
  lemma TrimIs(s: Bytes, a: nat, b: nat)
    requires a < b <= |s| && !IsSpace(s[a]) && !IsSpace(s[b - 1])
    requires (forall i :: 0 <= i < a ==> IsSpace(s[i])) && forall i :: b <= i < |s| ==> IsSpace(s[i])
    ensures Trim(s) == s[a..b]
  {
    var c, d := TrimmedAt(s);
    TrimKeepsOctets(s);
    assert c == a && d == b by {
      assert d > c;
      assert Trim(s)[0] == s[c] && Trim(s)[d - c - 1] == s[d - 1];
    }
  }

  // ----- sizes as text

  datatype Radix = Decimal | Hexadecimal

  function DigitOf(b: Byte, radix: Radix): Option<nat> {
    if 48 <= b <= 57 then Some(b - 48)
    else if radix == Decimal then None
    else if 97 <= b <= 102 then Some(b - 87)
    else if 65 <= b <= 70 then Some(b - 55)
    else None
  }

  predicate AllDigits(s: Bytes, radix: Radix) {
    forall i :: 0 <= i < |s| ==> DigitOf(s[i], radix).Some?
  }

  function Base(radix: Radix): nat {
    if radix == Decimal then 10 else 16
  }

  /** `value * base + digit`, with the base written out so that it stays linear. */
  function Shifted(value: nat, digit: nat, radix: Radix): nat {
    if radix == Decimal then 10 * value + digit else 16 * value + digit
  }

  /** The number that a string of digits stands for. */
  function PositionalValue(s: Bytes, radix: Radix): nat
    requires AllDigits(s, radix)
  {
    if s == [] then 0
    else Shifted(PositionalValue(s[..|s| - 1], radix), DigitOf(s[|s| - 1], radix).value, radix)
  }

  /** What a size on the wire means: a non-empty string of digits whose value fits a size_t. */
  function SizeOf(s: Bytes, radix: Radix): Option<nat> {
    if s != [] && AllDigits(s, radix) && PositionalValue(s, radix) <= SIZE_MAX
    then Some(PositionalValue(s, radix))
    else None
  }

  lemma PrefixValueAtMost(s: Bytes, i: nat, radix: Radix)
    requires i <= |s| && AllDigits(s, radix)
    ensures AllDigits(s[..i], radix)
    ensures PositionalValue(s[..i], radix) <= PositionalValue(s, radix)
  {
    if i < |s| {
      assert s[..|s| - 1][..i] == s[..i];
      PrefixValueAtMost(s[..|s| - 1], i, radix);
    } else {
      assert s[..i] == s;
    }
  }

  /** `parse_decimal_size` and `parse_hex_size`: the running overflow test rejects exactly
      the digit strings whose value does not fit. */
  method ParseSize(value: Bytes, radix: Radix) returns (r: Option<nat>)
    ensures r == SizeOf(value, radix)
  {
    if value == [] {
      return None;
    }
    var parsed: nat := 0;
    for i := 0 to |value|
      invariant AllDigits(value[..i], radix)
      invariant parsed == PositionalValue(value[..i], radix) <= SIZE_MAX
    {
      var digit := DigitOf(value[i], radix);
      if digit.None? {
        return None;
      }
      assert value[..i + 1][..i] == value[..i];
      assert AllDigits(value[..i + 1], radix);
      if parsed > (SIZE_MAX - digit.value) / Base(radix) {
        if AllDigits(value, radix) {
          PrefixValueAtMost(value, i + 1, radix);
        }
        return None;
      }
      parsed := Shifted(parsed, digit.value, radix);
    }
    assert value[..|value|] == value;
    r := Some(parsed);
  }

  function DigitChar(d: nat): Byte
    requires d < 16
  {
    if d < 10 then 48 + d else 87 + d
  }

  lemma HexDigits(d: nat)
    requires d < 16
    ensures Ascii("0123456789abcdef")[d] == if d < 10 then 48 + d else 87 + d
  {
    assert Ascii("0123456789abcdef") == [48, 49, 50, 51, 52, 53, 54, 55, 56, 57, 97, 98, 99, 100, 101, 102];
    hide Ascii;
  }

  lemma DigitsAreNumbers(d: nat)
    requires d < 16
    ensures DigitChar(d) == Ascii("0123456789abcdef")[d]
    ensures forall b: Byte :: DigitOf(b, Hexadecimal) == Some(d) <==> ToLower(b) == Ascii("0123456789abcdef")[d]
  {
    hide Ascii;
    HexDigits(d);
  }

  /** `std::to_string` for sizes, and output with `std::hex`. */
  function Digits(n: nat, radix: Radix): Bytes {
    if n < Base(radix) then [DigitChar(n)]
    else Digits(n / Base(radix), radix) + [DigitChar(n % Base(radix))]
  }

  lemma {:induction false} DigitsValue(n: nat, radix: Radix)
    ensures Digits(n, radix) != [] && AllDigits(Digits(n, radix), radix)
    ensures PositionalValue(Digits(n, radix), radix) == n
  {
    if n < Base(radix) {
      assert PositionalValue([], radix) == 0;
      assert [DigitChar(n)][..0] == [];
    } else {
      DigitsValue(n / Base(radix), radix);
      var d := Digits(n, radix);
      assert d[..|d| - 1] == Digits(n / Base(radix), radix);
    }
  }

  lemma DigitsRoundTrip(n: nat, radix: Radix)
    requires n <= SIZE_MAX
    ensures SizeOf(Digits(n, radix), radix) == Some(n)
  {
    DigitsValue(n, radix);
  }

  function Pow16(k: nat): nat {
    if k == 0 then 1 else 16 * Pow16(k - 1)
  }

  lemma {:induction false} HexLength(n: nat, k: nat)
    requires 0 < k && n < Pow16(k)
    ensures |Digits(n, Hexadecimal)| <= k
  {
    if n >= 16 {
      assert k > 1;
      HexLength(n / 16, k - 1);
    }
  }

  lemma {:induction false} HexIsLong(n: nat, k: nat)
    requires n >= Pow16(k)
    ensures |Digits(n, Hexadecimal)| > k
  {
    if k > 0 {
      HexIsLong(n / 16, k - 1);
    } else {
      DigitsValue(n, Hexadecimal);
    }
  }

  lemma SizeInHex(n: nat)
    requires n <= SIZE_MAX
    ensures 1 <= |Digits(n, Hexadecimal)| <= 16
    ensures n > 0xFFF_FFFF_FFFF_FFFF ==> |Digits(n, Hexadecimal)| == 16
  {
    assert Pow16(4) == 0x1_0000;
    assert Pow16(8) == 0x1_0000_0000;
    assert Pow16(12) == 0x1_0000_0000_0000;
    assert Pow16(16) == SIZE_MAX + 1;
    HexLength(n, 16);
    DigitsValue(n, Hexadecimal);
    if n > 0xFFF_FFFF_FFFF_FFFF {
      assert Pow16(15) == 0x1000_0000_0000_0000;
      HexIsLong(n, 15);
    }
  }

  // ----- concatenation of many strings

  function Concat(parts: seq<Bytes>): Bytes {
    if parts == [] then [] else parts[0] + Concat(parts[1..])
  }

  lemma ConcatOne(part: Bytes)
    ensures Concat([part]) == part
  {
    assert [part][1..] == [] && Concat([]) == [] && part + [] == part;
  }
}
