/**
 * ECMAScript's `encodeURIComponent` and its inverse `decodeURIComponent`:
 * percent-encoding (section 2.1 of RFC 3986) of the UTF-8 bytes (RFC 3629)
 * of every character outside `A-Z a-z 0-9 - _ . ! ~ * ' ( )`, with
 * upper-case hexadecimal digits.
 */
module Uri {
  import opened Wrappers

  type Byte = b: int | 0 <= b < 256

  /** The characters `encodeURIComponent` leaves as they are. */
  predicate IsUnreserved(c: char) {
    || ('A' <= c <= 'Z') || ('a' <= c <= 'z') || ('0' <= c <= '9')
    || c == '-' || c == '_' || c == '.' || c == '!' || c == '~' || c == '*'
    || c == '\'' || c == '(' || c == ')'
  }

  predicate IsHexDigit(c: char) { ('0' <= c <= '9') || ('A' <= c <= 'F') || ('a' <= c <= 'f') }

  /** The code points a Dafny `char` can hold: the Unicode scalar values. */
  predicate IsScalar(cp: int) { (0 <= cp < 0xD800) || (0xE000 <= cp < 0x11_0000) }

  lemma CharIsScalar(c: char)
    ensures IsScalar(c as int)
  {
  }

  // ----- UTF-8 -----

  /** The UTF-8 encoding of one character (RFC 3629, section 3). */
  function Utf8Char(c: char): (bs: seq<Byte>)
    ensures 1 <= |bs| <= 4
    ensures (|bs| == 1) == (c as int < 0x80)
  {
    var cp := c as int;
    CharIsScalar(c);
    Utf8Bounds(cp);
    if cp < 0x80 then [cp]
    else if cp < 0x800 then [0xC0 + cp / 64, 0x80 + cp % 64]
    else if cp < 0x1_0000 then [0xE0 + cp / 4096, 0x80 + (cp / 64) % 64, 0x80 + cp % 64]
    else [0xF0 + cp / 262144, 0x80 + (cp / 4096) % 64, 0x80 + (cp / 64) % 64, 0x80 + cp % 64]
  }

  lemma Utf8Bounds(cp: int)
    requires 0 <= cp < 0x11_0000
    ensures cp < 0x800 ==> cp / 64 < 32
    ensures cp < 0x1_0000 ==> cp / 4096 < 16
    ensures cp / 262144 < 5
  {
  }

  function Utf8(s: string): seq<Byte> {
    if s == [] then [] else Utf8Char(s[0]) + Utf8(s[1..])
  }

  predicate IsContinuation(b: Byte) { 0x80 <= b < 0xC0 }

  /** How many bytes the sequence a lead byte opens has: the number of its
      leading one bits, or 1 for an ASCII byte; 0 when it can open none. */
  function SequenceLength(b: Byte): nat {
    if b < 0x80 then 1
    else if b < 0xC0 then 0
    else if b < 0xE0 then 2
    else if b < 0xF0 then 3
    else if b < 0xF8 then 4
    else 0
  }

  /** The character that 1 to 4 bytes encode, or `None` when they are not the
      shortest UTF-8 encoding of a Unicode scalar value. */
  function DecodeChar(bs: seq<Byte>): (r: Option<char>)
    requires 1 <= |bs| <= 4 && SequenceLength(bs[0]) == |bs|
  {
    if |bs| == 1 then Some(bs[0] as char)
    else if exists k :: 1 <= k < |bs| && !IsContinuation(bs[k]) then None
    else
      var cp := CodePoint(bs);
      var least := if |bs| == 2 then 0x80 else if |bs| == 3 then 0x800 else 0x1_0000;
      if least <= cp && IsScalar(cp) then Some(cp as char) else None
  }

  /** The payload bits of a lead byte followed by continuation bytes. */
  function CodePoint(bs: seq<Byte>): int
    requires 2 <= |bs| <= 4
  {
    var b0, b1 := bs[0] as int, bs[1] as int;
    if |bs| == 2 then (b0 - 0xC0) * 64 + (b1 - 0x80)
    else if |bs| == 3 then (b0 - 0xE0) * 4096 + (b1 - 0x80) * 64 + (bs[2] as int - 0x80)
    else (b0 - 0xF0) * 262144 + (b1 - 0x80) * 4096 + (bs[2] as int - 0x80) * 64 + (bs[3] as int - 0x80)
  }

  lemma Div64(cp: nat)
    ensures cp / 4096 == (cp / 64) / 64
    ensures cp / 262144 == (cp / 4096) / 64
  {
  }

  /** Decoding the UTF-8 bytes of a character gives the character back. */
  lemma DecodeUtf8Char(c: char)
    ensures SequenceLength(Utf8Char(c)[0]) == |Utf8Char(c)|
    ensures DecodeChar(Utf8Char(c)) == Some(c)
  {
    var cp := c as int;
    var bs := Utf8Char(c);
    CharIsScalar(c);
    if cp < 0x80 {
    } else if cp < 0x800 {
      assert CodePoint(bs) == cp;
    } else if cp < 0x1_0000 {
      Div64(cp);
      assert CodePoint(bs) == cp;
    } else {
      Div64(cp);
      assert CodePoint(bs) == cp;
    }
  }

  // ----- percent-encoding -----

  function HexChar(n: int): (c: char)
    requires 0 <= n < 16
    ensures ('0' <= c <= '9' || 'A' <= c <= 'F') && IsHexDigit(c) && HexValue(c) == n
  {
    if n < 10 then (48 + n) as char else (55 + n) as char
  }

  function HexValue(c: char): (n: nat)
    requires IsHexDigit(c)
    ensures n < 16
  {
    if '0' <= c <= '9' then c as int - 48
    else if 'A' <= c <= 'F' then c as int - 55
    else c as int - 87
  }

  /** `%XX` for one byte. */
  function Triplet(b: Byte): string {
    ['%', HexChar(b / 16), HexChar(b % 16)]
  }

  function Triplets(bs: seq<Byte>): (r: string)
    ensures |r| == 3 * |bs|
  {
    if bs == [] then [] else Triplet(bs[0]) + Triplets(bs[1..])
  }

  function EncodeChar(c: char): string {
    if IsUnreserved(c) then [c] else Triplets(Utf8Char(c))
  }

  /** `encodeURIComponent(s)`. */
  function EncodeURIComponent(s: string): string {
    if s == [] then [] else EncodeChar(s[0]) + EncodeURIComponent(s[1..])
  }

  predicate IsUpperHex(c: char) { ('0' <= c <= '9') || ('A' <= c <= 'F') }

  /** `r` starts with `%XX`, two upper-case hexadecimal digits. */
  predicate StartsWithTriplet(r: string) {
    |r| >= 3 && r[0] == '%' && IsUpperHex(r[1]) && IsUpperHex(r[2])
  }

  /** A string made only of unreserved characters and `%XX` triplets with
      upper-case hexadecimal digits. */
  predicate IsEncoded(r: string) {
    || r == []
    || (IsUnreserved(r[0]) && IsEncoded(r[1..]))
    || (StartsWithTriplet(r) && IsEncoded(r[3..]))
  }

  lemma {:induction false} IsEncodedAppend(a: string, b: string)
    requires IsEncoded(a) && IsEncoded(b)
    ensures IsEncoded(a + b)
    decreases |a|
  {
    if a == [] {
      assert a + b == b;
    } else if IsUnreserved(a[0]) && IsEncoded(a[1..]) {
      IsEncodedAppend(a[1..], b);
      assert (a + b)[1..] == a[1..] + b;
      assert (a + b)[0] == a[0];
    } else {
      IsEncodedAppend(a[3..], b);
      assert (a + b)[3..] == a[3..] + b;
      assert (a + b)[..3] == a[..3];
    }
  }

  lemma {:induction false} TripletsEncoded(bs: seq<Byte>)
    ensures IsEncoded(Triplets(bs))
    decreases |bs|
  {
    if bs != [] {
      TripletsEncoded(bs[1..]);
      var t := Triplets(bs);
      assert t[3..] == Triplets(bs[1..]);
    }
  }

  /** Every result of `encodeURIComponent` is made of unreserved characters and
      `%XX` triplets only. */
  lemma {:induction false} EncodeIsEncoded(s: string)
    ensures IsEncoded(EncodeURIComponent(s))
    decreases |s|
  {
    if s != [] {
      EncodeIsEncoded(s[1..]);
      if !IsUnreserved(s[0]) {
        TripletsEncoded(Utf8Char(s[0]));
      }
      IsEncodedAppend(EncodeChar(s[0]), EncodeURIComponent(s[1..]));
    }
  }

  /** The characters of an encoded string are unreserved ones, `%` and hexadecimal digits. */
  lemma {:induction false} EncodedChars(r: string, k: nat)
    requires IsEncoded(r) && k < |r|
    ensures IsUnreserved(r[k]) || r[k] == '%' || IsHexDigit(r[k])
    decreases |r|
  {
    if IsUnreserved(r[0]) && IsEncoded(r[1..]) {
      if k > 0 { EncodedChars(r[1..], k - 1); }
    } else if k >= 3 {
      EncodedChars(r[3..], k - 3);
    }
  }

  /** A string of unreserved characters encodes to itself. */
  lemma {:induction false} EncodeIdentity(s: string)
    requires forall k :: 0 <= k < |s| ==> IsUnreserved(s[k])
    ensures EncodeURIComponent(s) == s
    decreases |s|
  {
    if s != [] {
      EncodeIdentity(s[1..]);
    }
  }

  // ----- decoding -----

  /** Read `n` triplets `%XX` from the front of `s`: the bytes and the rest. */
  function ReadTriplets(s: string, n: nat): Option<(seq<Byte>, string)>
    decreases n
  {
    if n == 0 then Some(([], s))
    else if |s| >= 3 && s[0] == '%' && IsHexDigit(s[1]) && IsHexDigit(s[2]) then
      var b: Byte := HexValue(s[1]) * 16 + HexValue(s[2]);
      match ReadTriplets(s[3..], n - 1)
      case None => None
      case Some(p) => Some(([b] + p.0, p.1))
    else None
  }

  /** `decodeURIComponent(s)`; `None` stands for the `URIError` it throws on a
      malformed escape or on bytes that are not UTF-8. */
  function DecodeURIComponent(s: string): Option<string>
    decreases |s|
  {
    if s == [] then Some([])
    else if s[0] != '%' then
      match DecodeURIComponent(s[1..])
      case None => None
      case Some(t) => Some([s[0]] + t)
    else
      match ReadTriplets(s, 1)
      case None => None
      case Some(first) =>
        var n := SequenceLength(first.0[0]);
        if n == 0 then None
        else
          match ReadTriplets(s, n)
          case None => None
          case Some(p) =>
            assert |p.0| == n by { ReadTripletsLength(s, n); }
            match DecodeChar(p.0)
            case None => None
            case Some(c) =>
              assert |p.1| < |s| by { ReadTripletsLength(s, n); }
              match DecodeURIComponent(p.1)
              case None => None
              case Some(t) => Some([c] + t)
  }

  lemma {:induction false} ReadTripletsLength(s: string, n: nat)
    ensures ReadTriplets(s, n).Some? ==>
      |ReadTriplets(s, n).value.0| == n && 3 * n <= |s| && ReadTriplets(s, n).value.1 == s[3 * n..]
    decreases n
  {
    if n > 0 && |s| >= 3 {
      ReadTripletsLength(s[3..], n - 1);
    }
  }

  lemma HexRoundTrip(b: Byte)
    ensures IsHexDigit(HexChar(b / 16)) && IsHexDigit(HexChar(b % 16))
    ensures HexValue(HexChar(b / 16)) * 16 + HexValue(HexChar(b % 16)) == b
  {
    assert HexValue(HexChar(b / 16)) == b / 16;
    assert HexValue(HexChar(b % 16)) == b % 16;
  }

  lemma {:induction false} ReadTripletsOf(bs: seq<Byte>, rest: string, n: nat)
    requires n <= |bs|
    ensures ReadTriplets(Triplets(bs) + rest, n) == Some((bs[..n], Triplets(bs[n..]) + rest))
    decreases n
  {
    if n > 0 {
      var s := Triplets(bs) + rest;
      HexRoundTrip(bs[0]);
      assert s[3..] == Triplets(bs[1..]) + rest;
      ReadTripletsOf(bs[1..], rest, n - 1);
      assert [bs[0]] + bs[1..][..n - 1] == bs[..n];
    }
  }

  lemma DecodeEncodedChar(c: char, rest: string)
    ensures DecodeURIComponent(EncodeChar(c) + rest) ==
      match DecodeURIComponent(rest)
      case None => None
      case Some(t) => Some([c] + t)
  {
    var s := EncodeChar(c) + rest;
    if IsUnreserved(c) {
      assert s[1..] == rest;
    } else {
      DecodeEscapedChar(c, rest);
    }
  }

  /** The `%XX` triplets of a character's UTF-8 bytes decode back to it. */
  lemma DecodeEscapedChar(c: char, rest: string)
    ensures DecodeURIComponent(Triplets(Utf8Char(c)) + rest) ==
      match DecodeURIComponent(rest)
      case None => None
      case Some(t) => Some([c] + t)
  {
    DecodeUtf8Char(c);
    DecodeTripletsOf(Utf8Char(c), c, rest);
  }

  /** The triplets of a well-formed UTF-8 sequence decode to its character. */
  lemma DecodeTripletsOf(bs: seq<Byte>, c: char, rest: string)
    requires 1 <= |bs| <= 4 && SequenceLength(bs[0]) == |bs| && DecodeChar(bs) == Some(c)
    ensures DecodeURIComponent(Triplets(bs) + rest) ==
      match DecodeURIComponent(rest)
      case None => None
      case Some(t) => Some([c] + t)
  {
    var s := Triplets(bs) + rest;
    ReadTripletsOf(bs, rest, 1);
    ReadTripletsOf(bs, rest, |bs|);
    assert bs[|bs|..] == [] && bs[..|bs|] == bs;
    assert ReadTriplets(s, |bs|) == Some((bs, rest));
    assert s[0] == '%';
  }

  /** `decodeURIComponent(encodeURIComponent(s)) === s`. */
  lemma {:induction false} DecodeEncode(s: string)
    ensures DecodeURIComponent(EncodeURIComponent(s)) == Some(s)
    decreases |s|
  {
    if s != [] {
      DecodeEncode(s[1..]);
      DecodeEncodedChar(s[0], EncodeURIComponent(s[1..]));
      assert [s[0]] + s[1..] == s;
    }
  }

  /** Two strings with the same encoding are equal. */
  lemma EncodeInjective(s: string, t: string)
    requires EncodeURIComponent(s) == EncodeURIComponent(t)
    ensures s == t
  {
    DecodeEncode(s);
    DecodeEncode(t);
  }
}
