/** `encodeURIComponent`, which builds the query of the search fallback:
    every character outside the unreserved set `A-Z a-z 0-9 - _ . ! ~ * ' ( )`
    is written as the `%XX` escapes of its UTF-8 bytes (percent-encoding as in
    section 2.1 of RFC 3986, UTF-8 as in section 3 of RFC 3629). `Decode` is
    its inverse; the round trip shows that no two queries share an encoding. */
module UriEncoding {
  import opened Wrappers

  type Byte = b: int | 0 <= b < 256

  /** The characters `encodeURIComponent` leaves as they are. */
  predicate IsUnreserved(c: char) {
    || 'A' <= c <= 'Z' || 'a' <= c <= 'z' || '0' <= c <= '9'
    || c == '-' || c == '_' || c == '.' || c == '!' || c == '~'
    || c == '*' || c == '\'' || c == '(' || c == ')'
  }

  /** An upper-case hexadecimal digit, as `encodeURIComponent` writes them. */
  function HexDigit(d: int): (c: char)
    requires 0 <= d < 16
    ensures '0' <= c <= '9' || 'A' <= c <= 'F'
  {
    if d < 10 then ('0' as int + d) as char else ('A' as int + d - 10) as char
  }

  /** The value of a hexadecimal digit of either case. */
  function HexValue(c: char): (v: Option<int>)
    ensures v.Some? ==> 0 <= v.value < 16
  {
    if '0' <= c <= '9' then Some(c as int - '0' as int)
    else if 'A' <= c <= 'F' then Some(c as int - 'A' as int + 10)
    else if 'a' <= c <= 'f' then Some(c as int - 'a' as int + 10)
    else None
  }

  lemma HexRoundTrip(d: int)
    requires 0 <= d < 16
    ensures HexValue(HexDigit(d)) == Some(d)
  {
  }

  /** The UTF-8 encoding of one Unicode scalar value, one to four bytes. The
      six-bit groups are taken off by repeated division, so that decoding
      reassembles them by multiplication. */
  function Utf8(c: char): (bs: seq<Byte>)
    ensures 1 <= |bs| <= 4
  {
    var n := c as int;
    if n < 0x80 then [n]
    else if n < 0x800 then [0xC0 + n / 64, 0x80 + n % 64]
    else if n < 0x1_0000 then
      var q1 := n / 64;
      [0xE0 + q1 / 64, 0x80 + q1 % 64, 0x80 + n % 64]
    else
      var q1 := n / 64;
      var q2 := q1 / 64;
      [0xF0 + q2 / 64, 0x80 + q2 % 64, 0x80 + q1 % 64, 0x80 + n % 64]
  }

  /** `%XX` for each byte. */
  function PercentBytes(bs: seq<Byte>): (s: string)
    ensures |s| == 3 * |bs|
  {
    if bs == [] then "" else ['%', HexDigit(bs[0] / 16), HexDigit(bs[0] % 16)] + PercentBytes(bs[1..])
  }

  function EncodeChar(c: char): string {
    if IsUnreserved(c) then [c] else PercentBytes(Utf8(c))
  }

  /** `encodeURIComponent(s)` */
  function Encode(s: string): (r: string)
    ensures |r| >= |s|
  {
    if s == [] then "" else EncodeChar(s[0]) + Encode(s[1..])
  }

  /** The byte written as `%XY` at index `i` of `s`, if there is one. */
  function ByteAt(s: string, i: nat): (b: Option<Byte>)
  {
    if i + 3 <= |s| && s[i] == '%' then
      match (HexValue(s[i + 1]), HexValue(s[i + 2]))
      case (Some(hi), Some(lo)) => Some(hi * 16 + lo)
      case _ => None
    else None
  }

  /** The six payload bits of the continuation byte written at index `i`. */
  function ContinuationAt(s: string, i: nat): (v: Option<int>)
    ensures v.Some? ==> 0 <= v.value < 64
  {
    match ByteAt(s, i)
    case Some(b) => if 0x80 <= b < 0xC0 then Some(b - 0x80) else None
    case None => None
  }

  predicate IsScalar(n: int) {
    0 <= n < 0xD800 || 0xE000 <= n < 0x11_0000
  }

  /** Reads one character off the front of an encoded string: a literal
      character, or one to four `%XX` escapes forming a UTF-8 sequence.
      Returns the character and the number of characters read. */
  function DecodeOne(s: string): (r: Option<(char, nat)>)
    requires s != []
    ensures r.Some? ==> 1 <= r.value.1 <= |s|
  {
    if s[0] != '%' then Some((s[0], 1))
    else match ByteAt(s, 0)
      case None => None
      case Some(b0) =>
        if b0 < 0x80 then Some((b0 as char, 3))
        else if 0xC0 <= b0 < 0xE0 then
          match ContinuationAt(s, 3)
          case Some(t1) => Scalar((b0 - 0xC0) * 64 + t1, 6)
          case None => None
        else if 0xE0 <= b0 < 0xF0 then
          match (ContinuationAt(s, 3), ContinuationAt(s, 6))
          case (Some(t1), Some(t2)) => Scalar(((b0 - 0xE0) * 64 + t1) * 64 + t2, 9)
          case _ => None
        else if 0xF0 <= b0 < 0xF8 then
          match (ContinuationAt(s, 3), ContinuationAt(s, 6), ContinuationAt(s, 9))
          case (Some(t1), Some(t2), Some(t3)) => Scalar((((b0 - 0xF0) * 64 + t1) * 64 + t2) * 64 + t3, 12)
          case _ => None
        else None
  }

  function Scalar(n: int, len: nat): Option<(char, nat)> {
    if IsScalar(n) then Some((n as char, len)) else None
  }

  /** Decodes a whole string produced by `Encode`; `None` for text that is
      not a well-formed encoding. */
  function Decode(s: string): Option<string>
    decreases |s|
  {
    if s == [] then Some("")
    else match DecodeOne(s)
      case None => None
      case Some((c, n)) =>
        match Decode(s[n..])
        case None => None
        case Some(rest) => Some([c] + rest)
  }

  /** The byte written at index `3 * k` of an encoding is the `k`-th byte. */
  lemma {:induction false} ByteAtPercent(bs: seq<Byte>, rest: string, k: nat)
    requires k < |bs|
    ensures ByteAt(PercentBytes(bs) + rest, 3 * k) == Some(bs[k])
  {
    var s := PercentBytes(bs) + rest;
    assert PercentBytes(bs) == ['%', HexDigit(bs[0] / 16), HexDigit(bs[0] % 16)] + PercentBytes(bs[1..]);
    assert s[3..] == PercentBytes(bs[1..]) + rest;
    if k == 0 {
      assert s[0] == '%' && s[1] == HexDigit(bs[0] / 16) && s[2] == HexDigit(bs[0] % 16);
      HexRoundTrip(bs[0] / 16);
      HexRoundTrip(bs[0] % 16);
    } else {
      ByteAtPercent(bs[1..], rest, k - 1);
      ByteAtDrop(s, 3 * k);
    }
  }

  lemma ByteAtDrop(s: string, i: nat)
    requires 3 <= i && 3 <= |s|
    ensures ByteAt(s, i) == ByteAt(s[3..], i - 3)
  {
    if i + 3 <= |s| {
      assert s[3..][i - 3] == s[i] && s[3..][i - 2] == s[i + 1] && s[3..][i - 1] == s[i + 2];
    }
  }

  /** The six payload bits of a continuation byte of an encoding. */
  lemma ContinuationOf(bs: seq<Byte>, rest: string, k: nat)
    requires k < |bs| && IsContinuation(bs[k])
    ensures ContinuationAt(PercentBytes(bs) + rest, 3 * k) == Some(bs[k] - 0x80)
  {
    ByteAtPercent(bs, rest, k);
  }

  lemma DivMod64(x: int)
    requires 0 <= x
    ensures (x / 64) * 64 + x % 64 == x && 0 <= x % 64 < 64
  {
  }

  /** Reading one character back from an encoded character followed by
      anything consumes exactly that character's encoding. */
  lemma DecodeOneEncodeChar(c: char, rest: string)
    ensures DecodeOne(EncodeChar(c) + rest) == Some((c, |EncodeChar(c)|))
  {
    var n := c as int;
    if IsUnreserved(c) {
    } else if n < 0x80 {
      ByteAtPercent(Utf8(c), rest, 0);
    } else if n < 0x800 {
      DecodeTwoBytes(c, rest);
    } else if n < 0x1_0000 {
      DecodeThreeBytes(c, rest);
    } else {
      DecodeFourBytes(c, rest);
    }
  }

  predicate IsContinuation(b: Byte) {
    0x80 <= b < 0xC0
  }

  /** The bits a multi-byte sequence carries: the lead byte's low bits, then
      six bits per continuation byte. */
  function Payload(bs: seq<Byte>): int
    requires 2 <= |bs| <= 4
  {
    var lead := bs[0] as int - (if |bs| == 2 then 0xC0 else if |bs| == 3 then 0xE0 else 0xF0);
    var v := lead * 64 + (bs[1] as int - 0x80);
    var v := if |bs| >= 3 then v * 64 + (bs[2] as int - 0x80) else v;
    if |bs| == 4 then v * 64 + (bs[3] as int - 0x80) else v
  }

  /** A well-formed two-, three- or four-byte sequence is read back as the
      scalar value its payload bits spell. */
  lemma DecodeSequence2(bs: seq<Byte>, rest: string)
    requires |bs| == 2 && 0xC0 <= bs[0] < 0xE0 && IsContinuation(bs[1])
    ensures DecodeOne(PercentBytes(bs) + rest) == Scalar(Payload(bs), 6)
  {
    ByteAtPercent(bs, rest, 0);
    ContinuationOf(bs, rest, 1);
  }

  lemma DecodeSequence3(bs: seq<Byte>, rest: string)
    requires |bs| == 3 && 0xE0 <= bs[0] < 0xF0 && IsContinuation(bs[1]) && IsContinuation(bs[2])
    ensures DecodeOne(PercentBytes(bs) + rest) == Scalar(Payload(bs), 9)
  {
    ByteAtPercent(bs, rest, 0);
    ContinuationOf(bs, rest, 1);
    ContinuationOf(bs, rest, 2);
  }

  lemma DecodeSequence4(bs: seq<Byte>, rest: string)
    requires |bs| == 4 && 0xF0 <= bs[0] < 0xF8
    requires IsContinuation(bs[1]) && IsContinuation(bs[2]) && IsContinuation(bs[3])
    ensures DecodeOne(PercentBytes(bs) + rest) == Scalar(Payload(bs), 12)
  {
    ByteAtPercent(bs, rest, 0);
    ContinuationOf(bs, rest, 1);
    ContinuationOf(bs, rest, 2);
    ContinuationOf(bs, rest, 3);
  }

  lemma DecodeTwoBytes(c: char, rest: string)
    requires 0x80 <= c as int < 0x800
    ensures DecodeOne(PercentBytes(Utf8(c)) + rest) == Some((c, 6))
  {
    var n, bs := c as int, Utf8(c);
    DivMod64(n);
    assert Payload(bs) == n;
    DecodeSequence2(bs, rest);
  }

  lemma DecodeThreeBytes(c: char, rest: string)
    requires 0x800 <= c as int < 0x1_0000
    ensures DecodeOne(PercentBytes(Utf8(c)) + rest) == Some((c, 9))
  {
    var n, bs := c as int, Utf8(c);
    DivMod64(n);
    DivMod64(n / 64);
    assert Payload(bs) == n;
    DecodeSequence3(bs, rest);
  }

  lemma DecodeFourBytes(c: char, rest: string)
    requires 0x1_0000 <= c as int
    ensures DecodeOne(PercentBytes(Utf8(c)) + rest) == Some((c, 12))
  {
    var n, bs := c as int, Utf8(c);
    DivMod64(n);
    DivMod64(n / 64);
    DivMod64(n / 64 / 64);
    assert Payload(bs) == n;
    DecodeSequence4(bs, rest);
  }

  /** Decoding undoes `encodeURIComponent`. */
  lemma {:induction false} DecodeEncode(s: string)
    ensures Decode(Encode(s)) == Some(s)
  {
    if s != [] {
      var e := EncodeChar(s[0]);
      DecodeOneEncodeChar(s[0], Encode(s[1..]));
      assert Encode(s)[|e|..] == Encode(s[1..]);
      DecodeEncode(s[1..]);
      assert s == [s[0]] + s[1..];
    }
  }

  /** Text made of unreserved characters is left as it is, and only such text. */
  lemma {:induction false} EncodeKeepsUnreserved(s: string)
    ensures Encode(s) == s <==> forall i :: 0 <= i < |s| ==> IsUnreserved(s[i])
  {
    if s != [] {
      EncodeKeepsUnreserved(s[1..]);
      if !IsUnreserved(s[0]) {
        assert |EncodeChar(s[0])| >= 3;
        assert |Encode(s)| > |s|;
      } else {
        assert Encode(s) == [s[0]] + Encode(s[1..]);
        if Encode(s) == s {
          assert Encode(s[1..]) == s[1..];
        }
      }
    }
  }

  /** A space is sent as `%20`. */
  lemma EncodeSpace()
    ensures Encode(" ") == "%20"
  {
  }

  /** Encoding works character by character. */
  lemma {:induction false} EncodeConcat(a: string, b: string)
    ensures Encode(a + b) == Encode(a) + Encode(b)
  {
    if a != [] {
      assert Encode(a + b) == EncodeChar(a[0]) + Encode(a[1..] + b) by {
        assert (a + b)[0] == a[0] && (a + b)[1..] == a[1..] + b;
      }
      EncodeConcat(a[1..], b);
      assert Encode(a) == EncodeChar(a[0]) + Encode(a[1..]);
    } else {
      assert a + b == b;
    }
  }

  /** Two words of unreserved characters separated by a space are sent as
      the words with `%20` between them. */
  lemma {:induction false} TwoWordsQuery(a: string, b: string)
    requires forall i :: 0 <= i < |a| ==> IsUnreserved(a[i])
    requires forall i :: 0 <= i < |b| ==> IsUnreserved(b[i])
    ensures Encode(a + " " + b) == a + "%20" + b
  {
    EncodeKeepsUnreserved(a);
    EncodeKeepsUnreserved(b);
    EncodeConcat(a + " ", b);
    EncodeConcat(a, " ");
    EncodeSpace();
  }
}
