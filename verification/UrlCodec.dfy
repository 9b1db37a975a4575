/** `url_decode` and `url_encode` of misc.hpp: percent-encoding (section 2.1 of RFC 3986)
    with a space written as `+`. A character stands for one byte. */
module UrlCodec {
  predicate Bytes(s: string) {
    forall i | 0 <= i < |s| :: s[i] as int < 256
  }

  // ---- hexadecimal digits ----

  /** `hex2dec`: a byte that is no digit is returned as it is. */
  function Hex2Dec(c: char): (r: nat)
    ensures r < 256
  {
    var n := c as int % 256;
    if '0' as int <= n <= '9' as int then n - '0' as int
    else if 'a' as int <= n <= 'f' as int then n - ('a' as int - 10)
    else if 'A' as int <= n <= 'F' as int then n - ('A' as int - 10)
    else n
  }

  /** Bitwise or of the low `bits` bits. */
  function Or(a: nat, b: nat, bits: nat): nat {
    if bits == 0 then 0
    else (if a % 2 == 1 || b % 2 == 1 then 1 else 0) + 2 * Or(a / 2, b / 2, bits - 1)
  }

  /** The byte that two characters after a `%` stand for. */
  function Unescape(h: char, l: char): char {
    (Or(Hex2Dec(h) * 16 % 256, Hex2Dec(l), 8) % 256) as char
  }

  function Digit(n: nat): char
    requires n < 16
  {
    if n < 10 then ('0' as int + n) as char else ('a' as int + n - 10) as char
  }

  lemma {:induction false} Hex2DecDigit(n: nat)
    requires n < 16
    ensures Hex2Dec(Digit(n)) == n
  {
  }

  function Pow2(n: nat): nat {
    if n == 0 then 1 else 2 * Pow2(n - 1)
  }

  /** Below the bits of a shifted number, or is addition. */
  lemma {:induction false} OrNibbles(h: nat, l: nat)
    requires h < 16 && l < 16
    ensures Or(16 * h, l, 8) == 16 * h + l
  {
    hide Or;
    OrStep(16 * h, 8 * h, l, l / 2, 8);
    OrStep(8 * h, 4 * h, l / 2, l / 4, 7);
    OrStep(4 * h, 2 * h, l / 4, l / 8, 6);
    OrStep(2 * h, h, l / 8, 0, 5);
    assert Pow2(4) == 16;
    OrOnlyHigh(h, 4);
  }

  /** Or, one bit further down. */
  lemma {:induction false} OrStep(a2: nat, a: nat, b: nat, half: nat, bits: nat)
    requires a2 == 2 * a && half == b / 2 && bits > 0
    ensures Or(a2, b, bits) == b % 2 + 2 * Or(a, half, bits - 1)
    ensures b == b % 2 + 2 * half
  {
  }

  lemma {:induction false} OrOnlyHigh(a: nat, bits: nat)
    requires a < Pow2(bits)
    ensures Or(a, 0, bits) == a
  {
    if bits > 0 { OrOnlyHigh(a / 2, bits - 1); }
  }

  lemma {:induction false} UnescapeDigits(c: char)
    requires c as int < 256
    ensures Unescape(Digit(c as int / 16), Digit(c as int % 16)) == c
  {
    hide Or, Hex2Dec, Digit;
    var h, l := c as int / 16, c as int % 16;
    Hex2DecDigit(h);
    Hex2DecDigit(l);
    OrNibbles(h, l);
  }

  // ---- decoding ----

  /** No escape is cut off right after its `%`: the decoder then stays inside the string
      and its terminating zero. */
  predicate Decodable(s: string) {
    if s == "" then true
    else if s[0] == '%' then |s| >= 2 && (|s| == 2 || Decodable(s[3..]))
    else Decodable(s[1..])
  }

  /** Decoding, front to back; an escape with one character reads the zero that ends the
      string as its second. */
  function Decoded(s: string): string
    requires Decodable(s)
  {
    if s == "" then ""
    else if s[0] == '%' then
      if |s| == 2 then [Unescape(s[1], '\0')]
      else [Unescape(s[1], s[2])] + Decoded(s[3..])
    else [s[0]] + Decoded(s[1..])
  }

  /** What one turn of the decoder reads: the byte, and where it goes on. */
  lemma {:induction false} DecodedStep(s: string, r: nat)
    requires r < |s| && Decodable(s[r..])
    ensures s[r] == '%' ==> r + 1 < |s|
    ensures var next := if s[r] != '%' then r + 1 else if r + 2 < |s| then r + 3 else |s|;
      var v := if s[r] != '%' then s[r] else Unescape(s[r + 1], if r + 2 < |s| then s[r + 2] else '\0');
      && next <= |s| && Decodable(s[next..])
      && Decoded(s[r..]) == [v] + Decoded(s[next..])
  {
    hide Unescape;
    var rest := s[r..];
    if s[r] != '%' {
      assert rest[1..] == s[r + 1..];
    } else if r + 2 < |s| {
      assert rest[3..] == s[r + 3..];
    } else {
      assert s[|s|..] == "";
    }
  }

  /** `url_decode(std::string&)`: one index reads, one writes, in the same buffer. The
      result is the first `w` characters; `w` never passes `r`. */
  method UrlDecodeInPlace(str: array<char>) returns (w: nat)
    requires Decodable(str[..])
    modifies str
    ensures w <= str.Length
    ensures str[..w] == Decoded(old(str[..]))
  {
    hide Unescape, Decodable, Decoded;
    ghost var input := str[..];
    w := 0;
    var r := 0;
    assert input[0..] == input;
    while r < str.Length
      invariant w <= r <= str.Length
      invariant forall i | r <= i < str.Length :: str[i] == input[i]
      invariant Decodable(input[r..])
      invariant str[..w] + Decoded(input[r..]) == Decoded(input)
    {
      ghost var before := str[..w];
      DecodedStep(input, r);
      var v := str[r];
      if str[r] == '%' {
        var h := str[r + 1];
        var l := if r + 2 < str.Length then str[r + 2] else '\0';
        v := Unescape(h, l);
        r := if r + 2 < str.Length then r + 2 else str.Length - 1;
      }
      r := r + 1;
      assert before + ([v] + Decoded(input[r..])) == before + [v] + Decoded(input[r..]);
      str[w] := v;
      assert str[..w + 1] == before + [v];
      w := w + 1;
    }
    DecodedNothing();
    assert input[r..] == "" && str[..w] + "" == str[..w];
  }

  lemma {:induction false} DecodedNothing()
    ensures Decodable("") && Decoded("") == ""
  {
  }

  /** `url_decode(std::string_view)`. */
  method UrlDecode(s: string) returns (decoded: string)
    requires Decodable(s)
    ensures decoded == Decoded(s)
  {
    var str := new char[|s|](i requires 0 <= i < |s| => s[i]);
    assert str[..] == s;
    var w := UrlDecodeInPlace(str);
    return str[..w];
  }

  // ---- encoding ----

  /** `std::isalnum` in the classic locale, or one of the four marks. */
  predicate Unreserved(c: char) {
    || 'a' <= c <= 'z' || 'A' <= c <= 'Z' || '0' <= c <= '9'
    || c == '-' || c == '_' || c == '.' || c == '~'
  }

  function EncodedChar(c: char): string {
    if Unreserved(c) then [c]
    else if c == ' ' then "+"
    else ['%', Digit(c as int % 256 / 16), Digit(c as int % 16)]
  }

  function Encoded(s: string): string {
    if s == "" then "" else EncodedChar(s[0]) + Encoded(s[1..])
  }

  lemma {:induction false} EncodedStep(s: string, i: nat)
    requires i < |s|
    ensures Encoded(s[i..]) == EncodedChar(s[i]) + Encoded(s[i + 1..])
  {
    assert s[i..][1..] == s[i + 1..];
  }

  /** `url_encode`. */
  method UrlEncode(value: string) returns (escaped: string)
    ensures escaped == Encoded(value)
  {
    hide Unreserved, Digit, Encoded;
    escaped := "";
    var i := 0;
    assert value[0..] == value;
    while i < |value|
      invariant i <= |value|
      invariant escaped + Encoded(value[i..]) == Encoded(value)
    {
      var c := value[i];
      EncodedStep(value, i);
      ghost var before, rest := escaped, Encoded(value[i + 1..]);
      if Unreserved(c) {
        escaped := escaped + [c];
      } else if c == ' ' {
        escaped := escaped + "+";
      } else {
        escaped := escaped + ['%', Digit(c as int % 256 / 16), Digit(c as int % 16)];
      }
      assert before + (EncodedChar(c) + rest) == before + EncodedChar(c) + rest;
      i := i + 1;
    }
    EncodedNothing();
    assert value[i..] == "" && escaped + "" == escaped;
  }

  lemma {:induction false} EncodedNothing()
    ensures Encoded("") == ""
  {
  }

  /** What is left of a string whose spaces have become `+`. */
  function PlusForSpace(s: string): (r: string)
    ensures |r| == |s| && forall i | 0 <= i < |s| :: r[i] == if s[i] == ' ' then '+' else s[i]
  {
    if s == "" then "" else [if s[0] == ' ' then '+' else s[0]] + PlusForSpace(s[1..])
  }

  /** Decoding undoes encoding on every byte string, but for the spaces. */
  lemma {:induction false} DecodeEncode(s: string)
    requires Bytes(s)
    ensures Decodable(Encoded(s)) && Decoded(Encoded(s)) == PlusForSpace(s)
  {
    hide Unescape, Digit;
    if s != "" {
      var c, e, rest := s[0], EncodedChar(s[0]), Encoded(s[1..]);
      DecodeEncode(s[1..]);
      if Unreserved(c) || c == ' ' {
        assert (e + rest)[1..] == rest;
      } else {
        UnescapeDigits(c);
        assert (e + rest)[3..] == rest;
      }
    }
  }

  /** So a string comes back exactly when it has no space. */
  lemma {:induction false} UrlRoundTrip(s: string)
    requires Bytes(s)
    ensures Decodable(Encoded(s)) && (Decoded(Encoded(s)) == s <==> ' ' !in s)
  {
    DecodeEncode(s);
  }

  /** The encoder's output needs no quoting in a query string. */
  lemma {:induction false} EncodedAlphabet(s: string)
    ensures forall i | 0 <= i < |Encoded(s)| ::
      Unreserved(Encoded(s)[i]) || Encoded(s)[i] == '+' || Encoded(s)[i] == '%'
    ensures Encoded(s) == "" <==> s == ""
  {
    if s != "" { EncodedAlphabet(s[1..]); }
  }

  // ---- the alphabets ----

  const LOWER := "0123456789abcdef"
  const UPPER := "0123456789ABCDEF"

  /** A hexadecimal digit of either case, and its value. */
  predicate Hex(c: char, n: nat) {
    n < 16 && (c == LOWER[n] || c == UPPER[n])
  }

  lemma {:induction false} HexValue(c: char, n: nat)
    requires Hex(c, n)
    ensures n < 16 && Hex2Dec(c) == n
  {
  }

  /** An escape with two hexadecimal digits, in either case, is the byte they write. */
  lemma {:induction false} UnescapeHex(h: char, l: char, m: nat, n: nat)
    requires Hex(h, m) && Hex(l, n)
    ensures Unescape(h, l) as int == 16 * m + n
  {
    hide Or, Hex2Dec, Hex;
    HexValue(h, m);
    HexValue(l, n);
    OrNibbles(m, n);
  }

  /** A byte that is no hexadecimal digit stands for itself, shifted out of the byte when it
      comes first. */
  lemma {:induction false} MalformedEscape(c: char)
    requires c as int < 256 && forall n: nat :: !Hex(c, n)
    ensures Unescape('0', c) == c && Unescape(c, '0') as int == 16 * (c as int % 16)
  {
    hide Or, Hex2Dec, Hex;
    DigitOrItself(c);
    ZeroDigit();
    OrNothing(c as int, 8);
    ShiftedOut(c as int);
    OrNibbles(c as int % 16, 0);
  }

  lemma {:induction false} ZeroDigit()
    ensures Hex2Dec('0') == 0 && Pow2(8) == 256
  {
    assert Pow2(4) == 16;
  }

  lemma {:induction false} ShiftedOut(a: nat)
    ensures a * 16 % 256 == 16 * (a % 16)
  {
    assert a == 16 * (a / 16) + a % 16;
  }

  lemma {:induction false} DigitOrItself(c: char)
    requires c as int < 256
    ensures Hex2Dec(c) == c as int || exists n: nat :: Hex(c, n)
  {
    if '0' <= c <= '9' { assert Hex(c, c as int - '0' as int); }
    if 'a' <= c <= 'f' { assert Hex(c, c as int - 'a' as int + 10); }
    if 'A' <= c <= 'F' { assert Hex(c, c as int - 'A' as int + 10); }
  }

  lemma {:induction false} OrNothing(a: nat, bits: nat)
    requires a < Pow2(bits)
    ensures Or(0, a, bits) == a
  {
    if bits > 0 { OrNothing(a / 2, bits - 1); }
  }

  /** What the encoder makes of one byte: a letter, a digit or one of `-._~` (section 2.3 of
      RFC 3986) stays, a space becomes `+`, and everything else a percent sign and its two
      lower-case digits. */
  lemma {:induction false} EncodedByte(c: char)
    requires c as int < 256
    ensures Encoded([c]) ==
      if 'A' <= c <= 'Z' || 'a' <= c <= 'z' || '0' <= c <= '9' || c in "-._~" then [c]
      else if c == ' ' then "+"
      else "%" + [LOWER[c as int / 16], LOWER[c as int % 16]]
  {
    hide Digit, Encoded;
    EncodedOne(c);
    var h, l := c as int / 16, c as int % 16;
    assert h < 16 && l < 16 && c as int % 256 == c as int;
    DigitIs(h);
    DigitIs(l);
  }

  lemma {:induction false} EncodedOne(c: char)
    ensures Encoded([c]) == EncodedChar(c)
  {
    hide EncodedChar;
    assert [c][1..] == "" && Encoded("") == "" && EncodedChar(c) + "" == EncodedChar(c);
  }

  lemma {:induction false} DigitIs(n: nat)
    requires n < 16
    ensures Digit(n) == LOWER[n]
  {
  }

  /** Encoding goes character by character, and so does decoding between whole escapes. */
  lemma {:induction false} EncodedConcat(s: string, t: string)
    ensures Encoded(s + t) == Encoded(s) + Encoded(t)
    decreases |s|
  {
    if s == "" {
      assert s + t == t;
    } else {
      assert (s + t)[1..] == s[1..] + t;
      EncodedConcat(s[1..], t);
    }
  }

  /** Every escape has both its characters. */
  predicate WholeEscapes(s: string) {
    if s == "" then true
    else if s[0] == '%' then |s| >= 3 && WholeEscapes(s[3..])
    else WholeEscapes(s[1..])
  }

  lemma {:induction false} DecodedConcat(s: string, t: string)
    requires WholeEscapes(s) && Decodable(t)
    ensures Decodable(s) && Decodable(s + t) && Decoded(s + t) == Decoded(s) + Decoded(t)
    decreases |s|
  {
    hide Unescape;
    if s == "" {
      assert s + t == t;
    } else if s[0] == '%' {
      assert (s + t)[3..] == s[3..] + t;
      DecodedConcat(s[3..], t);
    } else {
      assert (s + t)[1..] == s[1..] + t;
      DecodedConcat(s[1..], t);
    }
  }

  /** Text without a percent sign decodes to itself, plus signs included; an escape to its
      byte; and a last one that has lost its second character to its first digit and the zero
      that ends the string. */
  lemma {:induction false} DecodedParts(s: string, h: char, l: char)
    requires '%' !in s
    ensures WholeEscapes(s) && Decodable(s) && Decoded(s) == s
    ensures WholeEscapes(['%', h, l]) && Decodable(['%', h, l]) && Decoded(['%', h, l]) == [Unescape(h, l)]
    ensures Decodable(['%', h]) && Decoded(['%', h]) == [Unescape(h, '\0')]
    decreases |s|
  {
    hide Unescape;
    assert ['%', h, l][3..] == "";
    if s != "" { DecodedParts(s[1..], h, l); }
  }
}
