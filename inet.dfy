/**
 * IPv4 addresses in their two forms: the dotted-decimal text that interfaces
 * report and results carry, and the packed four bytes the engine advertises.
 * `Aton` stands for `socket.inet_aton` (and for the parse done by
 * `netaddr.IPAddress`), `Ntoa` for `socket.inet_ntoa`.
 */
module Inet {
  import opened Wrappers
  import opened Text

  /** A packed IPv4 address. */
  type Packed = b: Bytes | |b| == 4 witness [0, 0, 0, 0]

  /** 127.0.0.0/8 (RFC 1122, section 3.2.1.3). */
  predicate IsLoopback(a: Packed) { a[0] == 127 }

  /** 169.254.0.0/16 (RFC 3927, section 2.1). */
  predicate IsLinkLocal(a: Packed) { a[0] == 169 && a[1] == 254 }

  /** Octets in decimal, separated by dots. */
  function DottedDecimal(bs: Bytes): string
    requires |bs| >= 1
  {
    if |bs| == 1 then NatToDecimal(bs[0]) else NatToDecimal(bs[0]) + "." + DottedDecimal(bs[1..])
  }

  /** `inet_ntoa`: the four bytes of a packed address as dotted-decimal text. */
  function Ntoa(a: Packed): string
  {
    DottedDecimal(a)
  }

  /** The position of the first dot in `s`, or `|s|` when there is none. */
  function IndexOfDot(s: string): (i: nat)
    ensures i <= |s|
    ensures i < |s| ==> s[i] == '.'
    ensures forall j :: 0 <= j < i ==> s[j] != '.'
  {
    if s == [] then 0 else if s[0] == '.' then 0 else 1 + IndexOfDot(s[1..])
  }

  /** One field of a dotted quad: a canonical decimal numeral below 256. */
  function ParseOctet(s: string): (r: Option<Byte>)
    ensures r.Some? ==> Canonical(s) && NatToDecimal(r.value) == s
  {
    if Canonical(s) && DecimalValue(s) < 256 then
      CanonicalRoundTrip(s);
      Some(DecimalValue(s))
    else None
  }

  /** The text before the first dot and the text after it, when there is a dot. */
  function SplitAtDot(s: string): (r: Option<(string, string)>)
    ensures r.Some? ==> s == r.value.0 + "." + r.value.1
  {
    var i := IndexOfDot(s);
    if i == |s| then None
    else
      assert s == s[..i] + "." + s[i + 1..];
      Some((s[..i], s[i + 1..]))
  }

  /** Reads `n` dot-separated octets that make up all of `s`. */
  function ParseFields(s: string, n: nat): (r: Option<Bytes>)
    requires n >= 1
    ensures r.Some? ==> |r.value| == n
    decreases n
  {
    if n == 1 then
      match ParseOctet(s)
      case None => None
      case Some(b) => Some([b])
    else
      match SplitAtDot(s)
      case None => None
      case Some((head, tail)) =>
        match ParseOctet(head)
        case None => None
        case Some(b) =>
          match ParseFields(tail, n - 1)
          case None => None
          case Some(bs) => Some([b] + bs)
  }

  /**
   * `inet_aton` on the four-part dotted-decimal form. The shorter, octal and
   * hexadecimal forms the C library also accepts are rejected here.
   */
  function Aton(s: string): Option<Packed>
  {
    var r := ParseFields(s, 4);
    if r.Some? then Some(r.value) else None
  }

  lemma {:induction false} IndexOfDotAfterDigits(d: string, rest: string)
    requires AllDigits(d)
    ensures IndexOfDot(d + "." + rest) == |d|
  {
    if d != [] {
      assert (d + "." + rest)[1..] == d[1..] + "." + rest;
      IndexOfDotAfterDigits(d[1..], rest);
    }
  }

  /** A numeral followed by a dot splits at that dot. */
  lemma SplitAfterDigits(d: string, rest: string)
    requires AllDigits(d)
    ensures SplitAtDot(d + "." + rest) == Some((d, rest))
  {
    var s := d + "." + rest;
    IndexOfDotAfterDigits(d, rest);
    assert s[..|d|] == d;
    assert s[|d| + 1..] == rest;
  }

  lemma ParseOctetOfDecimal(b: Byte)
    ensures ParseOctet(NatToDecimal(b)) == Some(b)
  {
    DecimalRoundTrip(b);
  }

  /** One step of the parse: a printed octet, a dot, then a tail that parses. */
  lemma ParseFieldsCons(s: string, rest: string, bs: Bytes)
    requires |bs| >= 2 && s == NatToDecimal(bs[0]) + "." + rest
    requires ParseFields(rest, |bs| - 1) == Some(bs[1..])
    ensures ParseFields(s, |bs|) == Some(bs)
  {
    SplitAfterDigits(NatToDecimal(bs[0]), rest);
    ParseOctetOfDecimal(bs[0]);
    assert [bs[0]] + bs[1..] == bs;
  }

  /** A single printed octet parses back. */
  lemma ParseOneOctet(bs: Bytes)
    requires |bs| == 1
    ensures ParseFields(DottedDecimal(bs), 1) == Some(bs)
  {
    ParseOctetOfDecimal(bs[0]);
    assert [bs[0]] == bs;
  }

  /** When the printed tail parses back, so does the printed whole. */
  lemma ParseMoreOctets(bs: Bytes)
    requires |bs| >= 2 && ParseFields(DottedDecimal(bs[1..]), |bs| - 1) == Some(bs[1..])
    ensures ParseFields(DottedDecimal(bs), |bs|) == Some(bs)
  {
    ParseFieldsCons(DottedDecimal(bs), DottedDecimal(bs[1..]), bs);
  }

  lemma {:induction false} ParseDottedDecimal(bs: Bytes)
    requires |bs| >= 1
    ensures ParseFields(DottedDecimal(bs), |bs|) == Some(bs)
  {
    if |bs| == 1 {
      ParseOneOctet(bs);
    } else {
      ParseDottedDecimal(bs[1..]);
      ParseMoreOctets(bs);
    }
  }

  lemma {:induction false} DottedDecimalOfParse(s: string, n: nat)
    requires n >= 1 && ParseFields(s, n).Some?
    ensures DottedDecimal(ParseFields(s, n).value) == s
    decreases n
  {
    var bs := ParseFields(s, n).value;
    if n > 1 {
      var (head, rest) := SplitAtDot(s).value;
      DottedDecimalOfParse(rest, n - 1);
      assert bs[1..] == ParseFields(rest, n - 1).value;
      assert NatToDecimal(bs[0]) == head;
      assert DottedDecimal(bs) == head + "." + rest;
    }
  }

  /** Parsing what `Ntoa` prints gives back the packed address. */
  lemma AtonNtoa(a: Packed)
    ensures Aton(Ntoa(a)) == Some(a)
  {
    ParseDottedDecimal(a);
  }

  /** The parser accepts only the text `Ntoa` prints, so parsing then printing is the identity too. */
  lemma NtoaAton(s: string)
    requires Aton(s).Some?
    ensures Ntoa(Aton(s).value) == s
  {
    DottedDecimalOfParse(s, 4);
  }
}
