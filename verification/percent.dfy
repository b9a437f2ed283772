/** UTF-8 and percent-encoding as used by Python's `urllib.parse.quote`/`unquote` and
    JavaScript's `encodeURIComponent` (section 2.1 of RFC 3986: a byte outside the
    unreserved set becomes `%` followed by two upper-case hexadecimal digits). */
module PercentEncoding {
  import opened Text

  newtype byte = x: int | 0 <= x < 256

  // ---------------------------------------------------------------------------
  // UTF-8

  /** The UTF-8 encoding of one Unicode scalar value. */
  function Utf8Bytes(c: char): (r: seq<byte>)
    ensures 1 <= |r| <= 4
    ensures |r| == 1 <==> c as int < 0x80
    ensures |r| == 1 ==> r[0] as int == c as int
    ensures forall k :: 1 <= k < |r| ==> 0x80 <= r[k] < 0xC0
  {
    var n := c as int;
    if n < 0x80 then [n as byte]
    else if n < 0x800 then [(0xC0 + n / 64) as byte, (0x80 + n % 64) as byte]
    else if n < 0x10000 then
      [(0xE0 + n / 4096) as byte, (0x80 + (n / 64) % 64) as byte, (0x80 + n % 64) as byte]
    else
      [(0xF0 + n / 262144) as byte, (0x80 + (n / 4096) % 64) as byte,
       (0x80 + (n / 64) % 64) as byte, (0x80 + n % 64) as byte]
  }

  /** The sequence length announced by a lead byte; 0 for a byte that cannot start one. */
  function Utf8Length(b: byte): nat {
    if b < 0x80 then 1
    else if 0xC2 <= b < 0xE0 then 2
    else if 0xE0 <= b < 0xF0 then 3
    else if 0xF0 <= b < 0xF5 then 4
    else 0
  }

  function Utf8Value(bs: seq<byte>): int
    requires 1 <= |bs| <= 4
  {
    if |bs| == 1 then bs[0] as int
    else if |bs| == 2 then (bs[0] as int - 0xC0) * 64 + (bs[1] as int - 0x80)
    else if |bs| == 3 then
      (bs[0] as int - 0xE0) * 4096 + (bs[1] as int - 0x80) * 64 + (bs[2] as int - 0x80)
    else
      (bs[0] as int - 0xF0) * 262144 + (bs[1] as int - 0x80) * 4096
      + (bs[2] as int - 0x80) * 64 + (bs[3] as int - 0x80)
  }

  /** The smallest value a sequence of the given length may encode (no overlong forms). */
  function Utf8Minimum(n: nat): int {
    if n <= 1 then 0 else if n == 2 then 0x80 else if n == 3 then 0x800 else 0x10000
  }

  predicate IsScalar(v: int) { 0 <= v < 0xD800 || 0xE000 <= v < 0x110000 }

  /** Strict UTF-8 decoding of exactly one character. */
  function DecodeUtf8(bs: seq<byte>): (r: Option<char>)
    ensures r.Some? ==> 1 <= |bs| <= 4 && |bs| == Utf8Length(bs[0])
  {
    if |bs| == 0 || |bs| != Utf8Length(bs[0]) then None
    else if exists k :: 1 <= k < |bs| && !(0x80 <= bs[k] < 0xC0) then None
    else
      var v := Utf8Value(bs);
      if v < Utf8Minimum(|bs|) || !IsScalar(v) then None else Some(v as char)
  }

  lemma Utf8LeadLength(c: char)
    ensures Utf8Length(Utf8Bytes(c)[0]) == |Utf8Bytes(c)|
  {
  }

  lemma Utf8ValueOfBytes(c: char)
    ensures Utf8Value(Utf8Bytes(c)) == c as int
  {
    var n := c as int;
    if 0x800 <= n < 0x10000 {
      ValueOfThree(c);
    } else if 0x10000 <= n {
      ValueOfFour(c);
    }
  }

  lemma ValueOfThree(c: char)
    requires 0x800 <= c as int < 0x10000
    ensures Utf8Value(Utf8Bytes(c)) == c as int
  {
    var n := c as int;
    var bs := Utf8Bytes(c);
    assert bs == [(0xE0 + n / 4096) as byte, (0x80 + (n / 64) % 64) as byte, (0x80 + n % 64) as byte];
    ThreeDigits(n);
  }

  lemma ThreeDigits(n: nat)
    ensures n == (n / 4096) * 4096 + ((n / 64) % 64) * 64 + n % 64
  {
    var a := n / 64;
    var b := a / 64;
    assert n == a * 64 + n % 64;
    assert a == b * 64 + a % 64;
    assert n / 4096 == b;
  }

  lemma ValueOfFour(c: char)
    requires 0x10000 <= c as int
    ensures Utf8Value(Utf8Bytes(c)) == c as int
  {
    var n := c as int;
    var bs := Utf8Bytes(c);
    assert bs == [(0xF0 + n / 262144) as byte, (0x80 + (n / 4096) % 64) as byte,
                  (0x80 + (n / 64) % 64) as byte, (0x80 + n % 64) as byte];
    FourDigits(n);
  }

  /** A value split into base-64 digits: the lowest three and the rest. */
  lemma FourDigits(n: nat)
    ensures n == (n / 262144) * 262144 + ((n / 4096) % 64) * 4096 + ((n / 64) % 64) * 64 + n % 64
  {
    var a := n / 64;
    var b := a / 64;
    var d := b / 64;
    assert n == a * 64 + n % 64;
    assert a == b * 64 + a % 64;
    assert b == d * 64 + b % 64;
    assert n / 4096 == b;
    assert n / 262144 == d;
  }

  /** Decoding undoes encoding, one character at a time. */
  lemma Utf8RoundTrip(c: char)
    ensures DecodeUtf8(Utf8Bytes(c)) == Some(c)
  {
    Utf8LeadLength(c);
    Utf8ValueOfBytes(c);
  }

  // ---------------------------------------------------------------------------
  // Hexadecimal digits

  /** An upper-case hexadecimal digit, as both encoders emit. */
  function HexDigit(d: nat): (c: char)
    requires d < 16
    ensures IsAsciiDigit(c) || 'A' <= c <= 'F'
  {
    if d < 10 then ('0' as int + d) as char else ('A' as int + d - 10) as char
  }

  /** A hexadecimal digit of either case, as the decoder accepts. */
  function HexValue(c: char): (r: Option<nat>)
    ensures r.Some? ==> r.value < 16
  {
    if '0' <= c <= '9' then Some(c as int - '0' as int)
    else if 'A' <= c <= 'F' then Some(c as int - 'A' as int + 10)
    else if 'a' <= c <= 'f' then Some(c as int - 'a' as int + 10)
    else None
  }

  lemma HexRoundTrip(d: nat)
    requires d < 16
    ensures HexValue(HexDigit(d)) == Some(d)
  {
  }

  // ---------------------------------------------------------------------------
  // Encoding

  /** `%XX` for one byte. */
  function PercentByte(b: byte): string {
    ['%', HexDigit(b as int / 16), HexDigit(b as int % 16)]
  }

  function PercentBytes(bs: seq<byte>): (r: string)
    ensures |r| == 3 * |bs|
  {
    if bs == [] then [] else PercentByte(bs[0]) + PercentBytes(bs[1..])
  }

  /** One character: itself when `keep` admits it, else its UTF-8 bytes percent-encoded. */
  function EncodeChar(c: char, keep: char -> bool): string {
    if keep(c) then [c] else PercentBytes(Utf8Bytes(c))
  }

  /** A character of percent-encoded output: kept, `%`, or an upper-case hex digit. */
  predicate IsEncodedChar(c: char, keep: char -> bool) {
    keep(c) || c == '%' || IsAsciiDigit(c) || 'A' <= c <= 'F'
  }

  lemma {:induction false} PercentBytesChars(bs: seq<byte>, keep: char -> bool)
    ensures forall k :: 0 <= k < |PercentBytes(bs)| ==> IsEncodedChar(PercentBytes(bs)[k], keep)
  {
    if bs != [] {
      PercentBytesChars(bs[1..], keep);
      var r := PercentBytes(bs);
      forall k | 0 <= k < |r| ensures IsEncodedChar(r[k], keep) {
        if k >= 3 {
          assert r[k] == PercentBytes(bs[1..])[k - 3];
        }
      }
    }
  }

  /** Percent-encoding of a whole string: `quote` and `encodeURIComponent` differ only in `keep`. */
  function PercentEncode(s: string, keep: char -> bool): (r: string)
    ensures |r| >= |s|
    ensures forall k :: 0 <= k < |r| ==> IsEncodedChar(r[k], keep)
  {
    if s == [] then []
    else
      PercentBytesChars(Utf8Bytes(s[0]), keep);
      var head := EncodeChar(s[0], keep);
      var tail := PercentEncode(s[1..], keep);
      assert forall k :: |head| <= k < |head + tail| ==> (head + tail)[k] == tail[k - |head|];
      head + tail
  }

  lemma {:induction false} PercentEncodeConcat(a: string, b: string, keep: char -> bool)
    ensures PercentEncode(a + b, keep) == PercentEncode(a, keep) + PercentEncode(b, keep)
  {
    if a == [] {
      assert a + b == b;
    } else {
      assert (a + b)[1..] == a[1..] + b;
      PercentEncodeConcat(a[1..], b, keep);
    }
  }

  /** A string of kept characters is encoded as itself. */
  lemma {:induction false} PercentEncodeKept(s: string, keep: char -> bool)
    requires forall k :: 0 <= k < |s| ==> keep(s[k])
    ensures PercentEncode(s, keep) == s
  {
    if s != [] {
      PercentEncodeKept(s[1..], keep);
      assert s == [s[0]] + s[1..];
    }
  }

  /** `urllib.parse.quote`'s always-safe set together with its default `safe='/'`. */
  predicate IsQuoteSafe(c: char) {
    IsAsciiUpper(c) || ('a' <= c <= 'z') || IsAsciiDigit(c)
    || c == '_' || c == '.' || c == '-' || c == '~' || c == '/'
  }

  /** `urllib.parse.quote(s)`. */
  function Quote(s: string): (r: string)
    ensures forall k :: 0 <= k < |r| ==> IsQuoteSafe(r[k]) || r[k] == '%' || 'A' <= r[k] <= 'F'
    ensures (forall k :: 0 <= k < |s| ==> IsQuoteSafe(s[k])) ==> r == s
  {
    if forall k :: 0 <= k < |s| ==> IsQuoteSafe(s[k]) then PercentEncodeKept(s, IsQuoteSafe); PercentEncode(s, IsQuoteSafe)
    else PercentEncode(s, IsQuoteSafe)
  }

  /** The unreserved set of `encodeURIComponent`. */
  predicate IsUriComponentSafe(c: char) {
    IsAsciiUpper(c) || ('a' <= c <= 'z') || IsAsciiDigit(c)
    || c == '-' || c == '_' || c == '.' || c == '!' || c == '~' || c == '*'
    || c == '\'' || c == '(' || c == ')'
  }

  /** JavaScript's `encodeURIComponent(s)`. */
  function EncodeUriComponent(s: string): (r: string)
    ensures forall k :: 0 <= k < |r| ==> IsUriComponentSafe(r[k]) || r[k] == '%'
    ensures (forall k :: 0 <= k < |s| ==> IsUriComponentSafe(s[k])) ==> r == s
  {
    if forall k :: 0 <= k < |s| ==> IsUriComponentSafe(s[k]) then
      PercentEncodeKept(s, IsUriComponentSafe); PercentEncode(s, IsUriComponentSafe)
    else PercentEncode(s, IsUriComponentSafe)
  }

  /** Quoted text holds none of the characters that delimit query parameters or fragments. */
  lemma QuoteHasNoDelimiters(s: string)
    ensures '&' !in Quote(s) && '#' !in Quote(s) && '?' !in Quote(s) && '=' !in Quote(s)
    ensures ' ' !in Quote(s)
  {
    var r := Quote(s);
    forall k | 0 <= k < |r| ensures r[k] !in "&#?= " {
      assert IsEncodedChar(r[k], IsQuoteSafe);
    }
  }

  // ---------------------------------------------------------------------------
  // Decoding

  /** The byte written as `%XX` at position `i`, if there is one. */
  function ByteAt(s: string, i: nat): (r: Option<byte>)
    ensures r.Some? ==> i + 3 <= |s| && s[i] == '%'
  {
    if i + 3 <= |s| && s[i] == '%' && HexValue(s[i + 1]).Some? && HexValue(s[i + 2]).Some? then
      Some((HexValue(s[i + 1]).value * 16 + HexValue(s[i + 2]).value) as byte)
    else None
  }

  /** `n` consecutive `%XX` triplets starting at `i`. */
  function TripletsAt(s: string, i: nat, n: nat): (r: Option<seq<byte>>)
    decreases n
    ensures r.Some? ==> |r.value| == n
    ensures r.Some? && n > 0 ==> i + 3 * n <= |s| && ByteAt(s, i) == Some(r.value[0])
  {
    if n == 0 then Some([])
    else match ByteAt(s, i)
      case None => None
      case Some(b) =>
        match TripletsAt(s, i + 3, n - 1)
        case None => None
        case Some(rest) => Some([b] + rest)
  }

  /** A whole UTF-8 character written as `%XX` triplets at `i`, with the number of triplets. */
  function DecodeCharAt(s: string, i: nat): (r: Option<(char, nat)>)
    ensures r.Some? ==> 1 <= r.value.1 <= 4 && i + 3 * r.value.1 <= |s| && s[i] == '%'
  {
    match ByteAt(s, i)
    case None => None
    case Some(lead) =>
      var n := Utf8Length(lead);
      if n == 0 then None
      else match TripletsAt(s, i, n)
        case None => None
        case Some(bs) =>
          match DecodeUtf8(bs)
          case None => None
          case Some(c) => Some((c, n))
  }

  /** `urllib.parse.unquote(s)`: every `%XX` run that spells a UTF-8 character is decoded;
      anything else is kept as written. */
  function Unquote(s: string): (r: string)
    decreases |s|
    ensures |r| <= |s|
    ensures '%' !in s ==> r == s
  {
    if s == [] then []
    else match DecodeCharAt(s, 0)
      case Some((c, n)) => [c] + Unquote(s[3 * n..])
      case None => [s[0]] + Unquote(s[1..])
  }

  lemma {:induction false} TripletsOfPercentBytes(bs: seq<byte>, rest: string)
    ensures TripletsAt(PercentBytes(bs) + rest, 0, |bs|) == Some(bs)
  {
    if bs != [] {
      var b := bs[0];
      var t := PercentBytes(bs[1..]) + rest;
      assert PercentBytes(bs) + rest == PercentByte(b) + t;
      PercentByteAt(b, t);
      TripletsOfPercentBytes(bs[1..], rest);
      TripletsShift(PercentByte(b), t, |bs| - 1);
      assert [b] + bs[1..] == bs;
    }
  }

  /** The triplet of a byte reads back as that byte, whatever follows it. */
  lemma PercentByteAt(b: byte, t: string)
    ensures ByteAt(PercentByte(b) + t, 0) == Some(b)
  {
    HexRoundTrip(b as int / 16);
    HexRoundTrip(b as int % 16);
    var s := PercentByte(b) + t;
    assert s[0] == '%' && s[1] == HexDigit(b as int / 16) && s[2] == HexDigit(b as int % 16);
  }

  /** Reading triplets past a three-character prefix. */
  lemma {:induction false} TripletsShift(p: string, t: string, n: nat)
    requires |p| == 3
    ensures TripletsAt(p + t, 3, n) == TripletsAt(t, 0, n)
  {
    TripletsShiftFrom(p, t, 0, n);
  }

  lemma {:induction false} TripletsShiftFrom(p: string, t: string, i: nat, n: nat)
    requires |p| == 3
    ensures TripletsAt(p + t, 3 + i, n) == TripletsAt(t, i, n)
    decreases n
  {
    if n > 0 {
      assert ByteAt(p + t, 3 + i) == ByteAt(t, i) by {
        if i + 3 <= |t| {
          assert (p + t)[3 + i] == t[i];
          assert (p + t)[3 + i + 1] == t[i + 1];
          assert (p + t)[3 + i + 2] == t[i + 2];
        }
      }
      TripletsShiftFrom(p, t, i + 3, n - 1);
    }
  }

  /** An encoded character followed by anything decodes back to that character first. */
  lemma DecodeEncodedChar(c: char, keep: char -> bool, rest: string)
    requires !keep(c)
    ensures DecodeCharAt(EncodeChar(c, keep) + rest, 0) == Some((c, |Utf8Bytes(c)|))
  {
    var bs := Utf8Bytes(c);
    TripletsOfPercentBytes(bs, rest);
    Utf8LeadLength(c);
    Utf8RoundTrip(c);
  }

  /** Decoding the encoding gives back the original text whenever `%` itself is encoded. */
  lemma {:induction false} UnquoteEncode(s: string, keep: char -> bool)
    requires !keep('%')
    ensures Unquote(PercentEncode(s, keep)) == s
  {
    if s != [] {
      var c := s[0];
      var tail := PercentEncode(s[1..], keep);
      var e := EncodeChar(c, keep) + tail;
      assert PercentEncode(s, keep) == e;
      UnquoteEncode(s[1..], keep);
      if keep(c) {
        assert e[1..] == tail;
      } else {
        DecodeEncodedChar(c, keep, tail);
        assert e[3 * |Utf8Bytes(c)|..] == tail;
      }
      assert s == [c] + s[1..];
    }
  }

  /** `unquote(quote(s)) == s`. */
  lemma UnquoteQuote(s: string)
    ensures Unquote(Quote(s)) == s
  {
    UnquoteEncode(s, IsQuoteSafe);
  }
}
