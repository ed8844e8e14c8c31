/**
 * Text encodings the handler relies on: UTF-8 (what `str.encode("utf-8")`
 * produces, RFC 3629) and the decimal spelling of integers (what `str(int)`
 * produces).
 */
module Text {
  import opened Wrappers

  type Byte = b: int | 0 <= b < 256
  type Bytes = seq<Byte>

  // ---------------------------------------------------------------- UTF-8

  /** The UTF-8 encoding of one Unicode scalar value (RFC 3629, section 3). */
  function EncodeChar(c: char): (r: Bytes)
    ensures 1 <= |r| <= 4
    ensures (c as int < 0x80) <==> |r| == 1
    ensures |r| == 1 ==> r[0] == c as int
    ensures forall i :: 1 <= i < |r| ==> 0x80 <= r[i] < 0xC0
  {
    var n := c as int;
    if n < 0x80 then [n]
    else if n < 0x800 then [0xC0 + n / 64, 0x80 + n % 64]
    else if n < 0x10000 then [0xE0 + n / 4096, 0x80 + n / 64 % 64, 0x80 + n % 64]
    else [0xF0 + n / 0x40000, 0x80 + n / 4096 % 64, 0x80 + n / 64 % 64, 0x80 + n % 64]
  }

  /** `s.encode("utf-8", errors="strict")`; a Dafny string holds no surrogates, so this never fails. */
  function Encode(s: string): (r: Bytes)
    ensures |r| >= |s|
  {
    if s == [] then [] else EncodeChar(s[0]) + Encode(s[1..])
  }

  predicate IsContinuation(b: Byte) { 0x80 <= b < 0xC0 }

  /**
   * The character a scalar value denotes, when it is one (not a surrogate, not
   * above U+10FFFF) and it needs `len` bytes (no overlong form).
   */
  function ScalarChar(n: int, len: nat): Option<(char, nat)>
  {
    var least := if len == 1 then 0 else if len == 2 then 0x80 else if len == 3 then 0x800 else 0x10000;
    if least <= n && (n < 0xD800 || 0xE000 <= n < 0x110000) then Some((n as char, len)) else None
  }

  /** Reads the character at the front of `bs`, with the number of bytes it took (RFC 3629, section 4). */
  function DecodeChar(bs: Bytes): (r: Option<(char, nat)>)
    ensures r.Some? ==> 1 <= r.value.1 <= |bs|
  {
    if |bs| == 0 then None
    else
      var b0: int := bs[0];
      if b0 < 0x80 then ScalarChar(b0, 1)
      else if 0xC0 <= b0 < 0xE0 && |bs| >= 2 && IsContinuation(bs[1]) then
        ScalarChar((b0 - 0xC0) * 64 + (bs[1] as int - 0x80), 2)
      else if 0xE0 <= b0 < 0xF0 && |bs| >= 3 && IsContinuation(bs[1]) && IsContinuation(bs[2]) then
        ScalarChar(((b0 - 0xE0) * 64 + (bs[1] as int - 0x80)) * 64 + (bs[2] as int - 0x80), 3)
      else if 0xF0 <= b0 < 0xF8 && |bs| >= 4 && IsContinuation(bs[1]) && IsContinuation(bs[2])
        && IsContinuation(bs[3]) then
        ScalarChar((((b0 - 0xF0) * 64 + (bs[1] as int - 0x80)) * 64 + (bs[2] as int - 0x80)) * 64
          + (bs[3] as int - 0x80), 4)
      else None
  }

  /** A UTF-8 reader, used here as the partner that shows `Encode` loses nothing. */
  function Decode(bs: Bytes): Option<string>
    decreases |bs|
  {
    if bs == [] then Some([])
    else match DecodeChar(bs)
      case None => None
      case Some((c, k)) =>
        match Decode(bs[k..])
        case None => None
        case Some(cs) => Some([c] + cs)
  }

  lemma DecodeTwoBytes(c: char, rest: Bytes)
    requires 0x80 <= c as int < 0x800
    ensures DecodeChar(EncodeChar(c) + rest) == Some((c, 2))
  {
    var n := c as int;
    var e := EncodeChar(c) + rest;
    assert e[0] == 0xC0 + n / 64 && e[1] == 0x80 + n % 64;
    assert (n / 64) * 64 + n % 64 == n;
  }

  lemma DecodeThreeBytes(c: char, rest: Bytes)
    requires 0x800 <= c as int < 0x10000
    ensures DecodeChar(EncodeChar(c) + rest) == Some((c, 3))
  {
    var n := c as int;
    var e := EncodeChar(c) + rest;
    var q := n / 64;
    assert e[0] == 0xE0 + q / 64 && e[1] == 0x80 + q % 64 && e[2] == 0x80 + n % 64 by {
      assert n / 4096 == q / 64;
    }
    assert (q / 64) * 64 + q % 64 == q;
    assert q * 64 + n % 64 == n;
  }

  lemma DecodeFourBytes(c: char, rest: Bytes)
    requires 0x10000 <= c as int
    ensures DecodeChar(EncodeChar(c) + rest) == Some((c, 4))
  {
    var n := c as int;
    var e := EncodeChar(c) + rest;
    var q := n / 64;
    var p := q / 64;
    assert e[0] == 0xF0 + p / 64 && e[1] == 0x80 + p % 64 && e[2] == 0x80 + q % 64 && e[3] == 0x80 + n % 64 by {
      assert n / 4096 == p;
      assert n / 0x40000 == p / 64;
    }
    assert (p / 64) * 64 + p % 64 == p;
    assert p * 64 + q % 64 == q;
    assert q * 64 + n % 64 == n;
  }

  lemma DecodeEncodeChar(c: char, rest: Bytes)
    ensures DecodeChar(EncodeChar(c) + rest) == Some((c, |EncodeChar(c)|))
  {
    var n := c as int;
    if n < 0x80 {
    } else if n < 0x800 {
      DecodeTwoBytes(c, rest);
    } else if n < 0x10000 {
      DecodeThreeBytes(c, rest);
    } else {
      DecodeFourBytes(c, rest);
    }
  }

  /** Decoding undoes encoding: `Encode` is the left half of a round trip. */
  lemma {:induction false} DecodeEncode(s: string)
    ensures Decode(Encode(s)) == Some(s)
  {
    if s != [] {
      var e := EncodeChar(s[0]);
      var all := e + Encode(s[1..]);
      assert Encode(s) == all;
      DecodeEncodeChar(s[0], Encode(s[1..]));
      assert all[|e|..] == Encode(s[1..]);
      DecodeEncode(s[1..]);
      assert Decode(all) == Some([s[0]] + s[1..]);
      assert [s[0]] + s[1..] == s;
    }
  }

  /** Splitting `a * 64 + b` back into its base-64 digits. */
  lemma DivMod64(a: int, b: int)
    requires 0 <= a && 0 <= b < 64
    ensures (a * 64 + b) / 64 == a && (a * 64 + b) % 64 == b
  {
    var n := a * 64 + b;
    var q, m := n / 64, n % 64;
    assert q * 64 + m == a * 64 + b;
    assert (q - a) * 64 == b - m;
  }

  lemma EncodeOfTwoBytes(bs: Bytes)
    requires DecodeChar(bs).Some? && 0xC0 <= bs[0] < 0xE0
    ensures var (c, k) := DecodeChar(bs).value; k == 2 && EncodeChar(c) == bs[..2]
  {
    var a: int, b: int := bs[0] - 0xC0, bs[1] - 0x80;
    DivMod64(a, b);
  }

  lemma EncodeOfThreeBytes(bs: Bytes)
    requires DecodeChar(bs).Some? && 0xE0 <= bs[0] < 0xF0
    ensures var (c, k) := DecodeChar(bs).value; k == 3 && EncodeChar(c) == bs[..3]
  {
    var a: int, b: int, d: int := bs[0] - 0xE0, bs[1] - 0x80, bs[2] - 0x80;
    var q := a * 64 + b;
    var n := q * 64 + d;
    DivMod64(q, d);
    DivMod64(a, b);
    assert n / 4096 == q / 64;
  }

  lemma EncodeOfFourBytes(bs: Bytes)
    requires DecodeChar(bs).Some? && 0xF0 <= bs[0] < 0xF8
    ensures var (c, k) := DecodeChar(bs).value; k == 4 && EncodeChar(c) == bs[..4]
  {
    var a: int, b: int, d: int, e: int := bs[0] - 0xF0, bs[1] - 0x80, bs[2] - 0x80, bs[3] - 0x80;
    var p := a * 64 + b;
    var q := p * 64 + d;
    var n := q * 64 + e;
    DivMod64(q, e);
    DivMod64(p, d);
    DivMod64(a, b);
    assert n / 4096 == p;
    assert n / 0x40000 == a;
  }

  /** The bytes a character is read from are exactly its encoding: the decoder accepts no overlong form. */
  lemma EncodeOfDecodeChar(bs: Bytes)
    requires DecodeChar(bs).Some?
    ensures var (c, k) := DecodeChar(bs).value; EncodeChar(c) == bs[..k]
  {
    if bs[0] < 0x80 {
    } else if bs[0] < 0xE0 {
      EncodeOfTwoBytes(bs);
    } else if bs[0] < 0xF0 {
      EncodeOfThreeBytes(bs);
    } else {
      EncodeOfFourBytes(bs);
    }
  }

  /** Decoding non-empty bytes reads one character, then decodes the rest. */
  lemma DecodeStep(bs: Bytes)
    requires bs != [] && Decode(bs).Some?
    ensures DecodeChar(bs).Some?
    ensures var (c, k) := DecodeChar(bs).value;
      Decode(bs[k..]).Some? && Decode(bs).value == [c] + Decode(bs[k..]).value
  {
  }

  /** Encoding a string encodes its first character, then the rest. */
  lemma EncodeStep(c: char, s: string)
    ensures Encode([c] + s) == EncodeChar(c) + Encode(s)
  {
    assert ([c] + s)[1..] == s;
  }

  /** Encoding undoes decoding: whatever bytes decode to `s` are exactly `Encode(s)`. */
  lemma {:induction false} EncodeDecode(bs: Bytes)
    requires Decode(bs).Some?
    ensures Encode(Decode(bs).value) == bs
    decreases |bs|
  {
    if bs != [] {
      DecodeStep(bs);
      var (c, k) := DecodeChar(bs).value;
      EncodeOfDecodeChar(bs);
      EncodeDecode(bs[k..]);
      EncodeStep(c, Decode(bs[k..]).value);
      assert bs == bs[..k] + bs[k..];
    }
  }

  /** Two different strings never encode to the same bytes. */
  lemma EncodeInjective(s: string, t: string)
    requires Encode(s) == Encode(t)
    ensures s == t
  {
    DecodeEncode(s);
    DecodeEncode(t);
  }

  /** On ASCII text the encoding is the sequence of code points. */
  lemma {:induction false} EncodeAscii(s: string)
    requires forall i :: 0 <= i < |s| ==> s[i] as int < 0x80
    ensures |Encode(s)| == |s|
    ensures forall i :: 0 <= i < |s| ==> Encode(s)[i] == s[i] as int
  {
    if s != [] {
      EncodeAscii(s[1..]);
    }
  }

  // -------------------------------------------------------------- decimal

  predicate IsDigit(c: char) { '0' <= c <= '9' }

  predicate AllDigits(s: string) { forall i :: 0 <= i < |s| ==> IsDigit(s[i]) }

  /** A decimal numeral without superfluous leading zeros. */
  predicate Canonical(s: string)
  {
    |s| >= 1 && AllDigits(s) && (s[0] == '0' ==> |s| == 1)
  }

  function DigitChar(d: int): (c: char)
    requires 0 <= d < 10
    ensures IsDigit(c) && c as int - '0' as int == d
  {
    ('0' as int + d) as char
  }

  /** The decimal spelling of a natural number, as `str(n)` writes it. */
  function NatToDecimal(n: nat): (r: string)
    ensures Canonical(r)
    ensures n < 10 <==> |r| == 1
  {
    if n < 10 then [DigitChar(n)] else NatToDecimal(n / 10) + [DigitChar(n % 10)]
  }

  /** The number a string of digits denotes. */
  function DecimalValue(s: string): nat
    requires AllDigits(s)
  {
    if s == [] then 0 else DecimalValue(s[..|s| - 1]) * 10 + (s[|s| - 1] as int - '0' as int)
  }

  lemma {:induction false} DecimalRoundTrip(n: nat)
    ensures DecimalValue(NatToDecimal(n)) == n
  {
    if n >= 10 {
      var r := NatToDecimal(n);
      assert r[..|r| - 1] == NatToDecimal(n / 10);
      DecimalRoundTrip(n / 10);
    }
  }

  lemma {:induction false} LeadingNonZeroPositive(s: string)
    requires |s| >= 1 && AllDigits(s) && s[0] != '0'
    ensures DecimalValue(s) >= 1
  {
    if |s| > 1 {
      LeadingNonZeroPositive(s[..|s| - 1]);
    }
  }

  /** Each number has exactly one canonical numeral: parsing one and printing the value gives it back. */
  lemma {:induction false} CanonicalRoundTrip(s: string)
    requires Canonical(s)
    ensures NatToDecimal(DecimalValue(s)) == s
  {
    if |s| > 1 {
      var init := s[..|s| - 1];
      assert Canonical(init) by {
        assert init[0] == s[0];
      }
      LeadingNonZeroPositive(init);
      CanonicalRoundTrip(init);
      var v := DecimalValue(s);
      assert v / 10 == DecimalValue(init);
      assert v % 10 == s[|s| - 1] as int - '0' as int;
      assert s == init + [s[|s| - 1]];
    }
  }

  /** `str(i)` for a Python int: an optional minus sign, then the numeral. */
  function IntToDecimal(i: int): (r: string)
    ensures i >= 0 ==> Canonical(r) && DecimalValue(r) == i
    ensures i < 0 ==> |r| >= 2 && r[0] == '-' && Canonical(r[1..]) && DecimalValue(r[1..]) == -i
  {
    DecimalRoundTrip(if i < 0 then -i else i);
    if i < 0 then "-" + NatToDecimal(-i) else NatToDecimal(i)
  }
}
