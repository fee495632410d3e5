/**
 * ECMAScript's `encodeURIComponent`: every character outside the unreserved
 * characters of section 2.3 of RFC 3986 (plus `! * ' ( )`) is written as the
 * percent-encoded octets (section 2.1 of RFC 3986, upper-case hex) of its
 * UTF-8 form (RFC 3629). `DecodeURIComponent` is its inverse and serves as
 * the partner against which the encoder is proved.
 */
module UriComponent {
  import opened Wrappers

  type Byte = x: int | 0 <= x < 0x100

  /** The characters `encodeURIComponent` copies unchanged. */
  predicate IsUnescaped(c: char)
  {
    ('A' <= c <= 'Z') || ('a' <= c <= 'z') || ('0' <= c <= '9') || c in "-_.!~*'()"
  }

  predicate IsUpperHexDigit(c: char)
  {
    ('0' <= c <= '9') || ('A' <= c <= 'F')
  }

  function HexDigit(n: int): (c: char)
    requires 0 <= n < 16
    ensures IsUpperHexDigit(c)
  {
    if n < 10 then ('0' as int + n) as char else ('A' as int + n - 10) as char
  }

  /** The value of a hex digit; decoding accepts both cases. */
  function HexValue(c: char): (r: Option<int>)
    ensures r.Some? ==> 0 <= r.value < 16
  {
    if '0' <= c <= '9' then Some(c as int - '0' as int)
    else if 'A' <= c <= 'F' then Some(c as int - 'A' as int + 10)
    else if 'a' <= c <= 'f' then Some(c as int - 'a' as int + 10)
    else None
  }

  // ---------------------------------------------------------------- UTF-8

  /** The UTF-8 octets of one Unicode scalar value. */
  function Utf8(c: char): (bs: seq<Byte>)
    ensures 1 <= |bs| <= 4
    ensures c as int < 0x80 ==> bs == [c as int]
  {
    var n := c as int;
    if n < 0x80 then [n]
    else if n < 0x800 then [0xC0 + n / 0x40, 0x80 + n % 0x40]
    else if n < 0x10000 then [0xE0 + n / 0x1000, 0x80 + n / 0x40 % 0x40, 0x80 + n % 0x40]
    else [0xF0 + n / 0x40000, 0x80 + n / 0x1000 % 0x40, 0x80 + n / 0x40 % 0x40, 0x80 + n % 0x40]
  }

  /** How many octets a sequence starting with `lead` has; 0 when `lead` cannot start one. */
  function SequenceLength(lead: Byte): nat
  {
    if lead < 0x80 then 1
    else if 0xC0 <= lead < 0xE0 then 2
    else if 0xE0 <= lead < 0xF0 then 3
    else if 0xF0 <= lead < 0xF8 then 4
    else 0
  }

  predicate IsContinuation(b: Byte)
  {
    0x80 <= b < 0xC0
  }

  /** The smallest code point that needs `n` octets (anything smaller is an overlong form). */
  function MinCodePoint(n: int): int
  {
    if n <= 1 then 0 else if n == 2 then 0x80 else if n == 3 then 0x800 else 0x10000
  }

  function CodePoint(bs: seq<Byte>): int
    requires 1 <= |bs| <= 4
  {
    var b0: int := bs[0];
    if |bs| == 1 then b0
    else if |bs| == 2 then (b0 - 0xC0) * 0x40 + Payload(bs[1])
    else if |bs| == 3 then (b0 - 0xE0) * 0x1000 + Payload(bs[1]) * 0x40 + Payload(bs[2])
    else (b0 - 0xF0) * 0x40000 + Payload(bs[1]) * 0x1000 + Payload(bs[2]) * 0x40 + Payload(bs[3])
  }

  /** The six low bits a continuation octet carries. */
  function Payload(b: Byte): int
  {
    b as int - 0x80
  }

  /** The scalar value `bs` encodes, or None when `bs` is not exactly one well-formed UTF-8 sequence. */
  function Utf8Decode(bs: seq<Byte>): (r: Option<char>)
    requires 1 <= |bs| <= 4
    ensures r.Some? ==> r.value as int == CodePoint(bs)
  {
    if SequenceLength(bs[0]) != |bs| then None
    else if !(forall k | 1 <= k < |bs| :: IsContinuation(bs[k])) then None
    else
      var cp := CodePoint(bs);
      if cp < MinCodePoint(|bs|) || 0x10FFFF < cp || (0xD800 <= cp < 0xE000) then None
      else Some(cp as char)
  }

  lemma Utf8RoundTrip(c: char)
    ensures SequenceLength(Utf8(c)[0]) == |Utf8(c)|
    ensures Utf8Decode(Utf8(c)) == Some(c)
  {
    var n := c as int;
    if n < 0x80 {
    } else if n < 0x800 {
      TwoOctetChar(c);
    } else if n < 0x10000 {
      ThreeOctetChar(c);
    } else {
      FourOctetChar(c);
    }
  }

  lemma TwoOctetChar(c: char)
    requires 0x80 <= c as int < 0x800
    ensures SequenceLength(Utf8(c)[0]) == |Utf8(c)| == 2
    ensures Utf8Decode(Utf8(c)) == Some(c)
  {
    var n := c as int;
    var bs := Utf8(c);
    assert bs == [0xC0 + n / 0x40, 0x80 + n % 0x40];
    TwoOctetRoundTrip(n);
    assert CodePoint(bs) == n;
  }

  lemma ThreeOctetChar(c: char)
    requires 0x800 <= c as int < 0x10000
    ensures SequenceLength(Utf8(c)[0]) == |Utf8(c)| == 3
    ensures Utf8Decode(Utf8(c)) == Some(c)
  {
    var n := c as int;
    var bs := Utf8(c);
    assert bs == [0xE0 + n / 0x1000, 0x80 + n / 0x40 % 0x40, 0x80 + n % 0x40];
    ThreeOctetRoundTrip(n);
    assert CodePoint(bs) == n;
  }

  lemma FourOctetChar(c: char)
    requires 0x10000 <= c as int
    ensures SequenceLength(Utf8(c)[0]) == |Utf8(c)| == 4
    ensures Utf8Decode(Utf8(c)) == Some(c)
  {
    var n := c as int;
    var bs := Utf8(c);
    assert bs == [0xF0 + n / 0x40000, 0x80 + n / 0x1000 % 0x40, 0x80 + n / 0x40 % 0x40, 0x80 + n % 0x40];
    FourOctetRoundTrip(n);
    assert CodePoint(bs) == n;
  }

  lemma TwoOctetRoundTrip(n: int)
    requires 0x80 <= n < 0x800
    ensures (0xC0 + n / 0x40 - 0xC0) * 0x40 + (n % 0x40) == n
  {
  }

  lemma ThreeOctetRoundTrip(n: int)
    requires 0x800 <= n < 0x10000
    ensures (0xE0 + n / 0x1000 - 0xE0) * 0x1000 + (n / 0x40 % 0x40) * 0x40 + (n % 0x40) == n
  {
    assert n % 0x1000 == n / 0x40 % 0x40 * 0x40 + n % 0x40;
  }

  lemma FourOctetRoundTrip(n: int)
    requires 0x10000 <= n < 0x110000
    ensures (0xF0 + n / 0x40000 - 0xF0) * 0x40000 + (n / 0x1000 % 0x40) * 0x1000 + (n / 0x40 % 0x40) * 0x40 + (n % 0x40) == n
  {
    var m1 := n / 0x40;
    var m2 := m1 / 0x40;
    var m3 := m2 / 0x40;
    assert n == m1 * 0x40 + n % 0x40;
    assert m1 == m2 * 0x40 + m1 % 0x40;
    assert m2 == m3 * 0x40 + m2 % 0x40;
    assert n / 0x1000 == m2;
    assert n / 0x40000 == m3;
  }

  // ------------------------------------------------------- percent-encoding

  /** One octet as `%XY`. */
  function PercentOctet(b: Byte): (t: string)
    ensures |t| == 3 && t[0] == '%' && IsUpperHexDigit(t[1]) && IsUpperHexDigit(t[2])
  {
    ['%', HexDigit(b / 16), HexDigit(b % 16)]
  }

  function PercentOctets(bs: seq<Byte>): (t: string)
    ensures |t| == 3 * |bs|
    ensures forall i :: 0 <= i < |t| ==> t[i] == '%' || IsUpperHexDigit(t[i])
  {
    if bs == [] then [] else PercentOctet(bs[0]) + PercentOctets(bs[1..])
  }

  function EncodeChar(c: char): (t: string)
    ensures IsUnescaped(c) ==> t == [c]
    ensures !IsUnescaped(c) && c as int < 0x80 ==> t == ['%', HexDigit(c as int / 16), HexDigit(c as int % 16)]
    ensures forall i :: 0 <= i < |t| ==> IsUnescaped(t[i]) || t[i] == '%' || IsUpperHexDigit(t[i])
  {
    if IsUnescaped(c) then [c] else PercentOctets(Utf8(c))
  }

  /** `encodeURIComponent(s)`: the result is made of unreserved characters and `%XY` triples only. */
  function EncodeURIComponent(s: string): (t: string)
    ensures |s| <= |t|
    ensures forall i :: 0 <= i < |t| ==> IsUnescaped(t[i]) || t[i] == '%' || IsUpperHexDigit(t[i])
    ensures '/' !in t
  {
    if s == [] then [] else EncodeChar(s[0]) + EncodeURIComponent(s[1..])
  }

  // -------------------------------------------------------------- decoding

  /** The octet written as `%XY` at the start of `t`, if there is one. */
  function OctetAt(t: string): (r: Option<Byte>)
    ensures r.Some? ==> 3 <= |t|
  {
    if |t| < 3 || t[0] != '%' then None
    else match (HexValue(t[1]), HexValue(t[2]))
      case (Some(hi), Some(lo)) => Some(hi * 16 + lo)
      case _ => None
  }

  /** `n` consecutive `%XY` octets at the start of `t`. */
  function OctetsAt(t: string, n: nat): (r: Option<seq<Byte>>)
    ensures r.Some? ==> |r.value| == n && 3 * n <= |t|
  {
    if n == 0 then Some([])
    else match OctetAt(t)
      case None => None
      case Some(b) =>
        match OctetsAt(t[3..], n - 1)
        case None => None
        case Some(rest) => Some([b] + rest)
  }

  /**
   * The character written as one escaped UTF-8 sequence (`%XY` one to four
   * times) at the start of `t`, with the number of characters it takes up.
   */
  function DecodeEscape(t: string): (r: Option<(char, nat)>)
    ensures r.Some? ==> 3 <= r.value.1 <= |t|
  {
    match OctetAt(t)
    case None => None
    case Some(lead) =>
      var n := SequenceLength(lead);
      if n == 0 then None
      else
        match OctetsAt(t, n)
        case None => None
        case Some(bs) =>
          match Utf8Decode(bs)
          case None => None
          case Some(c) => Some((c, 3 * n))
  }

  /** `decodeURIComponent(t)`, with None where the ECMAScript function throws a URIError. */
  function DecodeURIComponent(t: string): (r: Option<string>)
    decreases |t|
  {
    if t == [] then Some([])
    else if t[0] != '%' then
      match DecodeURIComponent(t[1..])
      case None => None
      case Some(rest) => Some([t[0]] + rest)
    else
      match DecodeEscape(t)
      case None => None
      case Some((c, k)) =>
        match DecodeURIComponent(t[k..])
        case None => None
        case Some(rest) => Some([c] + rest)
  }

  // ------------------------------------------------------------ round trip

  lemma OctetRoundTrip(b: Byte, rest: string)
    ensures OctetAt(PercentOctet(b) + rest) == Some(b)
  {
    var t := PercentOctet(b) + rest;
    assert t[1] == HexDigit(b / 16) && t[2] == HexDigit(b % 16);
  }

  lemma {:induction false} OctetsRoundTrip(bs: seq<Byte>, rest: string)
    ensures OctetsAt(PercentOctets(bs) + rest, |bs|) == Some(bs)
  {
    if bs != [] {
      var t := PercentOctets(bs) + rest;
      assert t == PercentOctet(bs[0]) + (PercentOctets(bs[1..]) + rest);
      OctetRoundTrip(bs[0], PercentOctets(bs[1..]) + rest);
      assert t[3..] == PercentOctets(bs[1..]) + rest;
      OctetsRoundTrip(bs[1..], rest);
      assert [bs[0]] + bs[1..] == bs;
    }
  }

  lemma DecodeEscapedChar(c: char, rest: string)
    requires !IsUnescaped(c)
    ensures DecodeEscape(EncodeChar(c) + rest) == Some((c, |EncodeChar(c)|))
  {
    var bs := Utf8(c);
    var t := EncodeChar(c) + rest;
    assert t == PercentOctet(bs[0]) + (PercentOctets(bs[1..]) + rest);
    OctetRoundTrip(bs[0], PercentOctets(bs[1..]) + rest);
    Utf8RoundTrip(c);
    OctetsRoundTrip(bs, rest);
  }

  /** Decoding the encoding of one character yields that character, followed by the decoding of what comes after. */
  lemma DecodeEncodedChar(c: char, rest: string)
    ensures DecodeURIComponent(EncodeChar(c) + rest) ==
      match DecodeURIComponent(rest)
      case None => None
      case Some(r) => Some([c] + r)
  {
    var t := EncodeChar(c) + rest;
    if IsUnescaped(c) {
      assert t[0] == c && t[1..] == rest;
    } else {
      DecodeEscapedChar(c, rest);
      assert t[0] == '%';
      assert t[|EncodeChar(c)|..] == rest;
    }
  }

  /** `decodeURIComponent(encodeURIComponent(s)) == s` for every string of scalar values. */
  lemma {:induction false} EncodeDecodeRoundTrip(s: string)
    ensures DecodeURIComponent(EncodeURIComponent(s)) == Some(s)
  {
    if s != [] {
      DecodeEncodedChar(s[0], EncodeURIComponent(s[1..]));
      EncodeDecodeRoundTrip(s[1..]);
      assert [s[0]] + s[1..] == s;
    }
  }

  /** The encoding of a concatenation is the concatenation of the encodings. */
  lemma {:induction false} EncodeAppend(a: string, b: string)
    ensures EncodeURIComponent(a + b) == EncodeURIComponent(a) + EncodeURIComponent(b)
  {
    if a == [] {
      assert a + b == b;
    } else {
      assert (a + b)[0] == a[0] && (a + b)[1..] == a[1..] + b;
      EncodeAppend(a[1..], b);
    }
  }

  /** A string of unreserved characters is its own encoding. */
  lemma {:induction false} UnescapedUnchanged(s: string)
    requires forall i :: 0 <= i < |s| ==> IsUnescaped(s[i])
    ensures EncodeURIComponent(s) == s
  {
    if s != [] {
      UnescapedUnchanged(s[1..]);
      assert [s[0]] + s[1..] == s;
    }
  }

  /** A `/` between two strings is written as `%2F`. */
  lemma EncodeSlash(a: string, b: string)
    ensures EncodeURIComponent(a + "/" + b) == EncodeURIComponent(a) + "%2F" + EncodeURIComponent(b)
  {
    EncodeAppend(a + "/", b);
    EncodeAppend(a, "/");
    assert EncodeChar('/') == "%2F";
    assert "/"[0] == '/' && "/"[1..] == [];
  }

  /** Lower-case letters are unreserved, so a lower-case word is its own encoding. */
  lemma LowerCaseUnchanged(s: string)
    requires forall i :: 0 <= i < |s| ==> 'a' <= s[i] <= 'z'
    ensures EncodeURIComponent(s) == s
  {
    UnescapedUnchanged(s);
  }

  /** A directory path keeps its letters and has its separator escaped. */
  lemma EncodeExample()
    ensures EncodeURIComponent("src" + "/" + "app") == "src" + "%2F" + "app"
  {
    EncodeSlash("src", "app");
    LowerCaseUnchanged("src");
    LowerCaseUnchanged("app");
  }
}
