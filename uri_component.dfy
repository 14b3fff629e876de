/**
 * encodeURIComponent and its inverse decodeURIComponent, as ECMA-262 defines them among
 * the URI handling functions of section 19.2.6 (encodeURIComponent is section 19.2.6.5):
 * every character outside the unreserved set is written as the percent-escaped
 * octets of its UTF-8 encoding, with upper-case hexadecimal digits.
 */
module UriComponent {
  import opened Wrappers

  /** One octet. */
  type Byte = b: int | 0 <= b < 256

  /** The characters encodeURIComponent leaves alone: letters, digits and - _ . ! ~ * ' ( ). */
  predicate IsUnreserved(c: char) {
    || ('A' <= c <= 'Z') || ('a' <= c <= 'z') || ('0' <= c <= '9')
    || c == '-' || c == '_' || c == '.' || c == '!' || c == '~' || c == '*' || c == '\'' || c == '(' || c == ')'
  }

  /** The characters that can appear in an encoded component. */
  predicate IsEncodedChar(c: char) {
    IsUnreserved(c) || c == '%'
  }

  /** Upper-case hexadecimal digit of a nibble. */
  function HexDigit(n: nat): (c: char)
    requires n < 16
    ensures IsUnreserved(c)
  {
    if n < 10 then ('0' as int + n) as char else ('A' as int + n - 10) as char
  }

  /** Value of a hexadecimal digit of either case. */
  function HexValue(c: char): (r: Option<nat>)
    ensures r.Some? ==> r.value < 16
  {
    if '0' <= c <= '9' then Some(c as int - '0' as int)
    else if 'A' <= c <= 'F' then Some(c as int - 'A' as int + 10)
    else if 'a' <= c <= 'f' then Some(c as int - 'a' as int + 10)
    else None
  }

  lemma HexValueOfDigit(n: nat)
    requires n < 16
    ensures HexValue(HexDigit(n)) == Some(n)
  {
  }

  /** The number of octets a UTF-8 sequence has, read off its first octet (0: not a first octet). */
  function SequenceLength(b: Byte): nat {
    if b < 0x80 then 1
    else if 0xC0 <= b < 0xE0 then 2
    else if 0xE0 <= b < 0xF0 then 3
    else if 0xF0 <= b < 0xF8 then 4
    else 0
  }

  predicate IsContinuation(b: Byte) {
    0x80 <= b < 0xC0
  }

  /** The UTF-8 encoding of one Unicode scalar value. */
  function Utf8(c: char): (bs: seq<Byte>)
    ensures 1 <= |bs| <= 4 && SequenceLength(bs[0]) == |bs|
    ensures forall i :: 1 <= i < |bs| ==> IsContinuation(bs[i])
  {
    var n := c as int;
    if n < 0x80 then [n]
    else if n < 0x800 then [0xC0 + n / 0x40, 0x80 + n % 0x40]
    else if n < 0x1_0000 then [0xE0 + n / 0x1000, 0x80 + n / 0x40 % 0x40, 0x80 + n % 0x40]
    else [0xF0 + n / 0x4_0000, 0x80 + n / 0x1000 % 0x40, 0x80 + n / 0x40 % 0x40, 0x80 + n % 0x40]
  }

  /** The bits a sequence of two to four octets carries: 5, 4 or 3 from the first, 6 from each other. */
  function ScalarValue(bs: seq<Byte>): (n: int)
    requires 2 <= |bs| <= 4 && SequenceLength(bs[0]) == |bs|
    requires forall i :: 1 <= i < |bs| ==> IsContinuation(bs[i])
    ensures 0 <= n < (if |bs| == 2 then 0x800 else if |bs| == 3 then 0x1_0000 else 0x20_0000)
  {
    assert IsContinuation(bs[1]);
    var b0: int, b1: int := bs[0], bs[1];
    if |bs| == 2 then (b0 - 0xC0) * 0x40 + (b1 - 0x80)
    else
      var b2: int := bs[2];
      assert IsContinuation(bs[2]);
      if |bs| == 3 then ((b0 - 0xE0) * 0x40 + (b1 - 0x80)) * 0x40 + (b2 - 0x80)
      else
        var b3: int := bs[3];
        assert IsContinuation(bs[3]);
        (((b0 - 0xF0) * 0x40 + (b1 - 0x80)) * 0x40 + (b2 - 0x80)) * 0x40 + (b3 - 0x80)
  }

  /**
   * The scalar value a complete UTF-8 sequence stands for, or None when the octets
   * are not one well-formed sequence (an overlong form, a surrogate, a value past U+10FFFF).
   */
  function Utf8Decode(bs: seq<Byte>): Option<char> {
    if |bs| == 0 || SequenceLength(bs[0]) != |bs| then None
    else if exists i :: 1 <= i < |bs| && !IsContinuation(bs[i]) then None
    else if |bs| == 1 then Some(bs[0] as char)
    else
      var n := ScalarValue(bs);
      if |bs| == 2 then
        if n < 0x80 then None else Some(n as char)
      else if |bs| == 3 then
        if n < 0x800 || (0xD800 <= n < 0xE000) then None else Some(n as char)
      else
        if n < 0x1_0000 || 0x11_0000 <= n then None else Some(n as char)
  }

  lemma Utf8RoundTrip(c: char)
    ensures Utf8Decode(Utf8(c)) == Some(c)
  {
    var n := c as int;
    var bs := Utf8(c);
    if 0x800 <= n < 0x1_0000 {
      assert n / 0x1000 == n / 0x40 / 0x40;
    } else if 0x1_0000 <= n {
      assert n / 0x1000 == n / 0x40 / 0x40;
      assert n / 0x4_0000 == n / 0x1000 / 0x40;
    }
    if 0x80 <= n {
      assert ScalarValue(bs) == n;
    }
  }

  /** Six more low bits after q: dividing by 0x40 gives q back, the remainder the six bits. */
  lemma SplitSixBits(q: int, r: int)
    requires 0 <= r < 0x40
    ensures (q * 0x40 + r) / 0x40 == q && (q * 0x40 + r) % 0x40 == r
  {
  }

  /** A decoded sequence of two to four octets is the UTF-8 form of its scalar value. */
  lemma {:induction false} MultiOctetCanonical(bs: seq<Byte>, n: int)
    requires 2 <= |bs| <= 4 && SequenceLength(bs[0]) == |bs|
    requires forall i :: 1 <= i < |bs| ==> IsContinuation(bs[i])
    requires n == ScalarValue(bs)
    requires |bs| == 2 ==> 0x80 <= n
    requires |bs| == 3 ==> 0x800 <= n
    requires |bs| == 4 ==> 0x1_0000 <= n
    ensures |bs| == 2 ==> bs == [0xC0 + n / 0x40, 0x80 + n % 0x40]
    ensures |bs| == 3 ==> bs == [0xE0 + n / 0x1000, 0x80 + n / 0x40 % 0x40, 0x80 + n % 0x40]
    ensures |bs| == 4 ==> bs == [0xF0 + n / 0x4_0000, 0x80 + n / 0x1000 % 0x40, 0x80 + n / 0x40 % 0x40, 0x80 + n % 0x40]
  {
    assert IsContinuation(bs[1]);
    var b0: int, b1: int := bs[0], bs[1];
    if |bs| == 2 {
      SplitSixBits(b0 - 0xC0, b1 - 0x80);
    } else {
      assert IsContinuation(bs[2]);
      var b2: int := bs[2];
      var lead := if |bs| == 3 then 0xE0 else 0xF0;
      var m := (b0 - lead) * 0x40 + (b1 - 0x80);
      var k := m * 0x40 + (b2 - 0x80);
      SplitSixBits(b0 - lead, b1 - 0x80);
      SplitSixBits(m, b2 - 0x80);
      assert k / 0x1000 == k / 0x40 / 0x40;
      if |bs| == 4 {
        assert IsContinuation(bs[3]);
        var b3: int := bs[3];
        SplitSixBits(k, b3 - 0x80);
        assert n / 0x1000 == n / 0x40 / 0x40;
        assert n / 0x4_0000 == n / 0x1000 / 0x40;
      }
    }
  }

  /** The converse of Utf8RoundTrip: the only octets that decode to c are Utf8(c). */
  lemma Utf8DecodeCanonical(bs: seq<Byte>, c: char)
    requires Utf8Decode(bs) == Some(c)
    ensures Utf8(c) == bs
  {
    if |bs| >= 2 {
      assert forall i :: 1 <= i < |bs| ==> IsContinuation(bs[i]);
      MultiOctetCanonical(bs, c as int);
    }
  }

  /** Each octet written as "%" and two upper-case hexadecimal digits. */
  function PercentEncode(bs: seq<Byte>): (s: string)
    ensures |s| == 3 * |bs|
    ensures forall i :: 0 <= i < |s| ==> IsEncodedChar(s[i])
  {
    if bs == [] then [] else ['%', HexDigit(bs[0] / 16), HexDigit(bs[0] % 16)] + PercentEncode(bs[1..])
  }

  /** Octet i is written at position 3i as "%" and its two upper-case hexadecimal digits. */
  lemma {:induction false} PercentEncodeAt(bs: seq<Byte>, i: nat)
    requires i < |bs|
    ensures PercentEncode(bs)[3 * i] == '%'
    ensures PercentEncode(bs)[3 * i + 1] == HexDigit(bs[i] / 16)
    ensures PercentEncode(bs)[3 * i + 2] == HexDigit(bs[i] % 16)
  {
    if i > 0 {
      var rest := PercentEncode(bs[1..]);
      PercentEncodeAt(bs[1..], i - 1);
      assert PercentEncode(bs)[3 * i..] == rest[3 * (i - 1)..];
    }
  }

  /** What encodeURIComponent writes for one character. */
  function EncodeChar(c: char): (s: string)
    ensures forall i :: 0 <= i < |s| ==> IsEncodedChar(s[i])
    ensures |s| >= 1 && (|s| == 1 <==> IsUnreserved(c))
  {
    if IsUnreserved(c) then [c] else PercentEncode(Utf8(c))
  }

  /** encodeURIComponent on a string of Unicode scalar values. */
  function Encode(s: string): (r: string)
    ensures forall i :: 0 <= i < |r| ==> IsEncodedChar(r[i])
    ensures |r| >= |s|
  {
    if s == [] then [] else EncodeChar(s[0]) + Encode(s[1..])
  }

  /** The octet written as "%XY" at the head of s. */
  function DecodeByte(s: string): Option<Byte> {
    if |s| < 3 || s[0] != '%' then None
    else match (HexValue(s[1]), HexValue(s[2]))
      case (Some(hi), Some(lo)) => Some(hi * 16 + lo)
      case _ => None
  }

  /** k percent-escaped octets at the head of s. */
  function ReadBytes(s: string, k: nat): (r: Option<seq<Byte>>)
    ensures r.Some? ==> |r.value| == k && 3 * k <= |s|
  {
    if k == 0 then Some([])
    else match DecodeByte(s)
      case None => None
      case Some(b) =>
        match ReadBytes(s[3..], k - 1)
        case None => None
        case Some(rest) => Some([b] + rest)
  }

  /** Decodes the character at the head of s and returns it with what follows it. */
  function DecodeChar(s: string): (r: Option<(char, string)>)
    requires s != []
    ensures r.Some? ==> |r.value.1| < |s|
  {
    if s[0] != '%' then Some((s[0], s[1..]))
    else match DecodeByte(s)
      case None => None
      case Some(b0) =>
        var k := SequenceLength(b0);
        if k == 0 then None
        else match ReadBytes(s, k)
          case None => None
          case Some(bs) =>
            match Utf8Decode(bs)
            case None => None
            case Some(c) => Some((c, s[3 * k..]))
  }

  /** decodeURIComponent: None where it would throw a URIError. */
  function Decode(s: string): Option<string>
    decreases |s|
  {
    if s == [] then Some([])
    else match DecodeChar(s)
      case None => None
      case Some((c, rest)) =>
        match Decode(rest)
        case None => None
        case Some(t) => Some([c] + t)
  }

  lemma {:induction false} ReadPercentEncoded(bs: seq<Byte>, rest: string)
    ensures ReadBytes(PercentEncode(bs) + rest, |bs|) == Some(bs)
    ensures bs != [] ==> DecodeByte(PercentEncode(bs) + rest) == Some(bs[0])
  {
    if bs != [] {
      var s := PercentEncode(bs) + rest;
      HexValueOfDigit(bs[0] / 16);
      HexValueOfDigit(bs[0] % 16);
      assert s[0] == '%' && s[1] == HexDigit(bs[0] / 16) && s[2] == HexDigit(bs[0] % 16);
      assert DecodeByte(s) == Some(bs[0]);
      assert s[3..] == PercentEncode(bs[1..]) + rest;
      ReadPercentEncoded(bs[1..], rest);
      assert [bs[0]] + bs[1..] == bs;
    }
  }

  lemma DecodeEncodeChar(c: char, rest: string)
    ensures DecodeChar(EncodeChar(c) + rest) == Some((c, rest))
  {
    var s := EncodeChar(c) + rest;
    if !IsUnreserved(c) {
      var bs := Utf8(c);
      ReadPercentEncoded(bs, rest);
      Utf8RoundTrip(c);
      if bs[0] < 0x80 {
        assert s[3..] == rest;
      } else {
        assert s[3 * |bs|..] == rest;
      }
    }
  }

  /** decodeURIComponent undoes encodeURIComponent. */
  lemma {:induction false} DecodeEncode(s: string)
    ensures Decode(Encode(s)) == Some(s)
  {
    if s != [] {
      DecodeEncodeChar(s[0], Encode(s[1..]));
      DecodeEncode(s[1..]);
      assert [s[0]] + s[1..] == s;
    }
  }

  /** Distinct strings have distinct encodings. */
  lemma EncodeInjective(a: string, b: string)
    requires Encode(a) == Encode(b)
    ensures a == b
  {
    DecodeEncode(a);
    DecodeEncode(b);
  }

  /** An encoded component never holds a path separator. */
  lemma EncodeHasNoSlash(s: string)
    ensures '/' !in Encode(s)
  {
  }

  /** A string is its own encoding exactly when all of its characters are unreserved. */
  lemma {:induction false} EncodeIdentity(s: string)
    ensures Encode(s) == s <==> forall i :: 0 <= i < |s| ==> IsUnreserved(s[i])
  {
    if s != [] {
      EncodeIdentity(s[1..]);
      if IsUnreserved(s[0]) {
        assert Encode(s) == [s[0]] + Encode(s[1..]);
        if Encode(s) == s {
          assert Encode(s[1..]) == s[1..];
        }
        if forall i :: 0 <= i < |s| ==> IsUnreserved(s[i]) {
          assert forall i :: 0 <= i < |s[1..]| ==> IsUnreserved(s[1..][i]) by {
            forall i | 0 <= i < |s[1..]| ensures IsUnreserved(s[1..][i]) {
              assert s[1..][i] == s[i + 1];
            }
          }
        } else {
          var i :| 0 <= i < |s| && !IsUnreserved(s[i]);
          assert s[1..][i - 1] == s[i];
        }
      } else {
        assert |Encode(s)| > |s|;
      }
    }
  }

  /** The example of a title with a space. */
  lemma EncodeSpace()
    ensures Encode("a b") == "a%20b"
  {
    assert Utf8(' ') == [0x20];
    assert EncodeChar(' ') == "%20";
    assert Encode("b") == "b";
    assert Encode(" b") == "%20b";
  }
}
