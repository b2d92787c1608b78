/**
 * Object-key decoding shared by the ingestion and rejection handlers:
 * `decodeURIComponent(key.replace(/\+/g, " "))`.
 *
 * `PercentDecode` follows the Decode abstract operation of ECMA-262 that
 * `decodeURIComponent` (section 19.2.6.2 of the 2023 edition) calls with an
 * empty set of escapes to preserve: a `%XX` triple below 0x80 yields that
 * character, a lead byte with two to four leading one bits is followed by the
 * continuation triples of a UTF-8 sequence, and anything else throws a URIError
 * (here: `None`). The encoders below are the partners the round trips are
 * proved against; they are not part of the handlers.
 */
module KeyCodec {
  import opened Wrappers

  /** `key.replace(/\+/g, " ")`: every plus sign becomes a space, nothing else changes. */
  function ReplacePlus(s: string): (r: string)
    ensures |r| == |s|
    ensures forall i :: 0 <= i < |s| ==> r[i] == (if s[i] == '+' then ' ' else s[i])
    ensures '+' !in r
  {
    if s == [] then [] else [if s[0] == '+' then ' ' else s[0]] + ReplacePlus(s[1..])
  }

  /** The value of one hexadecimal digit, either case. */
  function HexValue(c: char): (r: Option<nat>)
    ensures r.Some? ==> r.value < 16
  {
    if '0' <= c <= '9' then Some(c as nat - '0' as nat)
    else if 'a' <= c <= 'f' then Some(c as nat - 'a' as nat + 10)
    else if 'A' <= c <= 'F' then Some(c as nat - 'A' as nat + 10)
    else None
  }

  /** ParseHexOctet: the byte two hexadecimal digits spell, if both are digits. */
  function ParseHexOctet(hi: char, lo: char): (r: Option<nat>)
    ensures r.Some? ==> r.value < 256
  {
    if HexValue(hi).Some? && HexValue(lo).Some? then Some(16 * HexValue(hi).value + HexValue(lo).value)
    else None
  }

  /** The number of leading one bits of a byte. */
  function LeadingOnes(b: nat): nat
    requires b < 256
  {
    if b < 0x80 then 0
    else if b < 0xC0 then 1
    else if b < 0xE0 then 2
    else if b < 0xF0 then 3
    else if b < 0xF8 then 4
    else if b < 0xFC then 5
    else if b < 0xFE then 6
    else if b < 0xFF then 7
    else 8
  }

  predicate IsContinuation(b: nat)
  {
    0x80 <= b < 0xC0
  }

  /** A Unicode scalar value: what a Dafny `char` can hold. */
  predicate IsScalar(v: int)
  {
    0 <= v < 0xD800 || 0xE000 <= v < 0x11_0000
  }

  /**
   * The octets of triples `j`..`n-1` of an escape of `n` triples starting at
   * `s[0]`; `None` when one of them is not `%` followed by two hex digits.
   */
  function Octets(s: string, j: nat, n: nat): (r: Option<seq<nat>>)
    requires j <= n && 3 * n <= |s|
    ensures r.Some? ==> |r.value| == n - j && forall i :: 0 <= i < |r.value| ==> r.value[i] < 256
    decreases n - j
  {
    if j == n then Some([])
    else if s[3 * j] != '%' then None
    else
      var b := ParseHexOctet(s[3 * j + 1], s[3 * j + 2]);
      var rest := Octets(s, j + 1, n);
      if b.Some? && rest.Some? then Some([b.value] + rest.value) else None
  }

  /**
   * The code point of a multi-byte UTF-8 sequence, or `None` when the octets
   * are not a valid encoding of one (a byte that is not a continuation, an
   * overlong form, a surrogate, or a value past U+10FFFF).
   */
  function CodePoint(bs: seq<nat>): (r: Option<nat>)
    requires 2 <= |bs| <= 4
    requires forall i :: 0 <= i < |bs| ==> bs[i] < 256
    requires LeadingOnes(bs[0]) == |bs|
    ensures r.Some? ==> 0x80 <= r.value && IsScalar(r.value)
  {
    if !(forall i :: 1 <= i < |bs| ==> IsContinuation(bs[i])) then None
    else if |bs| == 2 then
      var v := (bs[0] - 0xC0) * 64 + (bs[1] - 0x80);
      if 0x80 <= v then Some(v) else None
    else if |bs| == 3 then
      var v := (bs[0] - 0xE0) * 4096 + (bs[1] - 0x80) * 64 + (bs[2] - 0x80);
      if 0x800 <= v && !(0xD800 <= v < 0xE000) then Some(v) else None
    else
      var v := (bs[0] - 0xF0) * 262144 + (bs[1] - 0x80) * 4096 + (bs[2] - 0x80) * 64 + (bs[3] - 0x80);
      if 0x1_0000 <= v < 0x11_0000 then Some(v) else None
  }

  /**
   * The escape that starts at `s[0] == '%'`: the character it stands for and
   * the number of input characters it spans, or `None` for a URIError.
   */
  function DecodeEscape(s: string): (r: Option<(char, nat)>)
    requires |s| > 0 && s[0] == '%'
    ensures r.Some? ==> 3 <= r.value.1 <= |s|
  {
    if |s| < 3 then None
    else
      var b := ParseHexOctet(s[1], s[2]);
      if b.None? then None
      else
        var n := LeadingOnes(b.value);
        if n == 0 then Some((b.value as char, 3))
        else if n == 1 || n > 4 || |s| < 3 * n then None
        else
          var tail := Octets(s, 1, n);
          if tail.None? then None
          else
            var v := CodePoint([b.value] + tail.value);
            if v.None? then None else Some((v.value as char, 3 * n))
  }

  /** Prepends a decoded character to the decoding of the rest, if that succeeded. */
  function Cons(c: char, o: Option<string>): (r: Option<string>)
  {
    match o
    case None => None
    case Some(t) => Some([c] + t)
  }

  /** `decodeURIComponent`: `None` is the URIError it throws. */
  function PercentDecode(s: string): (r: Option<string>)
    ensures '%' !in s ==> r == Some(s)
    ensures r.Some? ==> |r.value| <= |s|
    decreases |s|
  {
    if s == [] then Some([])
    else if s[0] != '%' then
      assert s == [s[0]] + s[1..];
      Cons(s[0], PercentDecode(s[1..]))
    else
      match DecodeEscape(s)
      case None => None
      case Some((c, len)) => Cons(c, PercentDecode(s[len..]))
  }

  /** The key decoding both SQS handlers apply to `s3.object.key`. */
  function DecodeKey(raw: string): (r: Option<string>)
    ensures '%' !in raw ==> r == Some(ReplacePlus(raw))
  {
    PercentDecode(ReplacePlus(raw))
  }

  // ---------------------------------------------------------------------
  // Encoders: the partners of the decoder.

  function HexDigit(v: nat): (c: char)
    requires v < 16
    ensures HexValue(c) == Some(v)
  {
    if v < 10 then ('0' as int + v) as char else ('A' as int + v - 10) as char
  }

  /** The UTF-8 octets of one character. */
  function Utf8Bytes(c: char): (bs: seq<nat>)
    ensures 1 <= |bs| <= 4 && forall i :: 0 <= i < |bs| ==> bs[i] < 256
  {
    var v := c as int;
    if v < 0x80 then [v]
    else if v < 0x800 then [0xC0 + v / 64, 0x80 + v % 64]
    else if v < 0x1_0000 then [0xE0 + v / 4096, 0x80 + (v / 64) % 64, 0x80 + v % 64]
    else [0xF0 + v / 262144, 0x80 + (v / 4096) % 64, 0x80 + (v / 64) % 64, 0x80 + v % 64]
  }

  /** Each octet as an upper-case `%XX` triple. */
  function EscapeBytes(bs: seq<nat>): (r: string)
    requires forall i :: 0 <= i < |bs| ==> bs[i] < 256
    ensures |r| == 3 * |bs|
    ensures forall j :: 0 <= j < |bs| ==>
              r[3 * j] == '%' && r[3 * j + 1] == HexDigit(bs[j] / 16) && r[3 * j + 2] == HexDigit(bs[j] % 16)
  {
    if bs == [] then ""
    else
      var head := ['%', HexDigit(bs[0] / 16), HexDigit(bs[0] % 16)];
      var tail := EscapeBytes(bs[1..]);
      TriplesAppend(bs, head, tail);
      head + tail
  }

  /** The triple of octet `j` of `bs` sits at `3 * j` once the first octet's triple is put in front. */
  lemma TriplesAppend(bs: seq<nat>, head: string, tail: string)
    requires 0 < |bs| && forall i :: 0 <= i < |bs| ==> bs[i] < 256
    requires head == ['%', HexDigit(bs[0] / 16), HexDigit(bs[0] % 16)]
    requires |tail| == 3 * (|bs| - 1)
    requires forall j :: 0 <= j < |bs| - 1 ==>
               tail[3 * j] == '%' && tail[3 * j + 1] == HexDigit(bs[1..][j] / 16) && tail[3 * j + 2] == HexDigit(bs[1..][j] % 16)
    ensures forall j :: 0 <= j < |bs| ==>
              (head + tail)[3 * j] == '%' && (head + tail)[3 * j + 1] == HexDigit(bs[j] / 16)
              && (head + tail)[3 * j + 2] == HexDigit(bs[j] % 16)
  {
    var r := head + tail;
    forall j | 0 <= j < |bs|
      ensures r[3 * j] == '%' && r[3 * j + 1] == HexDigit(bs[j] / 16) && r[3 * j + 2] == HexDigit(bs[j] % 16)
    {
      if j > 0 {
        var k := j - 1;
        assert 3 * j == 3 * k + 3;
        assert bs[j] == bs[1..][k];
        assert r[3 * j] == tail[3 * k] && r[3 * j + 1] == tail[3 * k + 1] && r[3 * j + 2] == tail[3 * k + 2];
      }
    }
  }

  /** The percent-escaped UTF-8 encoding of one character. */
  function EscapeChar(c: char): (r: string)
    ensures |r| >= 3 && r[0] == '%'
  {
    EscapeBytes(Utf8Bytes(c))
  }

  /** The characters `encodeURIComponent` leaves as they are. */
  predicate IsUnreserved(c: char)
  {
    ('A' <= c <= 'Z') || ('a' <= c <= 'z') || ('0' <= c <= '9')
    || c in "-_.!~*'()"
  }

  /** `encodeURIComponent`. */
  function PercentEncode(s: string): string
  {
    if s == [] then ""
    else (if IsUnreserved(s[0]) then [s[0]] else EscapeChar(s[0])) + PercentEncode(s[1..])
  }

  /**
   * The form-style encoding object keys carry in S3 event notifications:
   * a space becomes `+`, any other reserved character (`+` included) is
   * percent-escaped.
   */
  function FormEncodeKey(k: string): string
  {
    if k == [] then "" else FormEncodeChar(k[0]) + FormEncodeKey(k[1..])
  }

  function FormEncodeChar(c: char): string
  {
    if c == ' ' then "+" else if IsUnreserved(c) then [c] else EscapeChar(c)
  }

  // ---------------------------------------------------------------------
  // Round trips.

  lemma DecodeLiteral(c: char, rest: string)
    requires c != '%'
    ensures PercentDecode([c] + rest) == Cons(c, PercentDecode(rest))
  {
    assert ([c] + rest)[1..] == rest;
  }

  /** The arithmetic of the UTF-8 transformation: decoding the octets of `c` gives `c` back. */
  lemma CodePointOfUtf8(c: char)
    requires c as int >= 0x80
    ensures var bs := Utf8Bytes(c); 2 <= |bs| && LeadingOnes(bs[0]) == |bs| && CodePoint(bs) == Some(c as nat)
  {
    var v := c as int;
    var q, r := v / 64, v % 64;
    assert v == 64 * q + r;
    if v < 0x800 {
    } else if v < 0x1_0000 {
      assert v / 4096 == q / 64;
      assert 0xE0 <= 0xE0 + v / 4096 < 0xF0;
    } else {
      var q2 := q / 64;
      assert q == 64 * q2 + q % 64;
      assert v / 4096 == q2;
      assert v / 262144 == q2 / 64;
      assert q2 == 64 * (q2 / 64) + q2 % 64;
      assert 0xF0 <= 0xF0 + v / 262144 < 0xF8;
    }
  }

  /** The two hexadecimal digits of a byte spell it. */
  lemma HexOctetOfDigits(b: nat)
    requires b < 256
    ensures ParseHexOctet(HexDigit(b / 16), HexDigit(b % 16)) == Some(b)
  {
    assert 16 * (b / 16) + b % 16 == b;
  }

  /** The continuation triples of an escaped byte sequence parse back to its octets. */
  lemma {:induction false} OctetsOfEscape(bs: seq<nat>, rest: string, j: nat)
    requires forall i :: 0 <= i < |bs| ==> bs[i] < 256
    requires j <= |bs|
    ensures 3 * |bs| <= |EscapeBytes(bs) + rest|
    ensures Octets(EscapeBytes(bs) + rest, j, |bs|) == Some(bs[j..])
    decreases |bs| - j
  {
    var s := EscapeBytes(bs) + rest;
    var n := |bs|;
    if j == n {
      assert bs[j..] == [];
    } else {
      OctetsOfEscape(bs, rest, j + 1);
      var b := bs[j];
      var e := EscapeBytes(bs);
      assert s[3 * j] == e[3 * j] == '%';
      assert s[3 * j + 1] == e[3 * j + 1] == HexDigit(b / 16);
      assert s[3 * j + 2] == e[3 * j + 2] == HexDigit(b % 16);
      HexOctetOfDigits(b);
      assert Octets(s, j, n) == Some([b] + bs[j + 1..]);
      assert bs[j..] == [b] + bs[j + 1..];
    }
  }

  lemma DecodeEscapeOfChar(c: char, rest: string)
    ensures var s := EscapeChar(c) + rest; DecodeEscape(s) == Some((c, |EscapeChar(c)|))
  {
    var bs := Utf8Bytes(c);
    var s := EscapeChar(c) + rest;
    assert s[1] == HexDigit(bs[0] / 16) && s[2] == HexDigit(bs[0] % 16);
    HexOctetOfDigits(bs[0]);
    if c as int >= 0x80 {
      CodePointOfUtf8(c);
      OctetsOfEscape(bs, rest, 1);
      assert [bs[0]] + bs[1..] == bs;
    }
  }

  /** Decoding an escaped character yields it and continues right after the escape. */
  lemma DecodeEscaped(c: char, rest: string)
    ensures PercentDecode(EscapeChar(c) + rest) == Cons(c, PercentDecode(rest))
  {
    var e := EscapeChar(c);
    DecodeEscapeOfChar(c, rest);
    assert (e + rest)[|e|..] == rest;
  }

  /** `decodeURIComponent(encodeURIComponent(s)) == s` for every string. */
  lemma {:induction false} PercentRoundTrip(s: string)
    ensures PercentDecode(PercentEncode(s)) == Some(s)
  {
    if s != [] {
      PercentRoundTrip(s[1..]);
      if IsUnreserved(s[0]) {
        DecodeLiteral(s[0], PercentEncode(s[1..]));
      } else {
        DecodeEscaped(s[0], PercentEncode(s[1..]));
      }
      assert [s[0]] + s[1..] == s;
    }
  }

  lemma {:induction false} ReplacePlusAppend(a: string, b: string)
    ensures ReplacePlus(a + b) == ReplacePlus(a) + ReplacePlus(b)
  {
    if a == [] {
      assert a + b == b;
    } else {
      assert (a + b)[0] == a[0] && (a + b)[1..] == a[1..] + b;
      ReplacePlusAppend(a[1..], b);
    }
  }


  /**
   * The key decoding undoes the notification's form encoding: a space sent as
   * `+` and a plus sign sent as `%2B` both come back as the uploader wrote them.
   */
  lemma {:induction false} KeyRoundTrip(k: string)
    ensures DecodeKey(FormEncodeKey(k)) == Some(k)
  {
    if k != [] {
      KeyRoundTrip(k[1..]);
      DecodeFormChar(k[0], FormEncodeKey(k[1..]));
      assert [k[0]] + k[1..] == k;
    }
  }

  /** One form-encoded character decodes back to itself, whatever follows it. */
  lemma DecodeFormChar(c: char, rest: string)
    ensures DecodeKey(FormEncodeChar(c) + rest) == Cons(c, DecodeKey(rest))
  {
    var e := FormEncodeChar(c);
    ReplacePlusAppend(e, rest);
    if c == ' ' {
      assert ReplacePlus(e) == " ";
      DecodeLiteral(' ', ReplacePlus(rest));
    } else if IsUnreserved(c) {
      assert ReplacePlus(e) == [c];
      DecodeLiteral(c, ReplacePlus(rest));
    } else {
      EscapeHasNoPlus(c);
      DecodeEscaped(c, ReplacePlus(rest));
    }
  }

  lemma EscapeHasNoPlus(c: char)
    ensures ReplacePlus(EscapeChar(c)) == EscapeChar(c)
  {
    var e := EscapeChar(c);
    EscapeBytesHaveNoPlus(Utf8Bytes(c));
    assert forall i :: 0 <= i < |e| ==> e[i] != '+';
  }

  lemma {:induction false} EscapeBytesHaveNoPlus(bs: seq<nat>)
    requires forall i :: 0 <= i < |bs| ==> bs[i] < 256
    ensures '+' !in EscapeBytes(bs)
  {
    if bs != [] {
      EscapeBytesHaveNoPlus(bs[1..]);
      var hi, lo := HexDigit(bs[0] / 16), HexDigit(bs[0] % 16);
      assert hi != '+' && lo != '+' by {
        assert HexValue(hi).Some? && HexValue(lo).Some?;
      }
      assert EscapeBytes(bs) == ['%', hi, lo] + EscapeBytes(bs[1..]);
    }
  }

  // ---------------------------------------------------------------------
  // Where a plus sign in a decoded key comes from.

  /** `s[i..i+3]` is `%2B` or `%2b`, the escapes of a plus sign. */
  predicate EscapesPlus(s: string, i: int)
  {
    0 <= i && i + 2 < |s| && s[i] == '%' && s[i + 1] == '2' && (s[i + 2] == 'B' || s[i + 2] == 'b')
  }

  lemma {:induction false} PlusOnlyFromEscape(s: string)
    requires '+' !in s
    requires forall i :: !EscapesPlus(s, i)
    ensures PercentDecode(s).Some? ==> '+' !in PercentDecode(s).value
    decreases |s|
  {
    if s != [] && (s[0] != '%' || DecodeEscape(s).Some?) {
      var c, len := if s[0] != '%' then s[0] else DecodeEscape(s).value.0,
                    if s[0] != '%' then 1 else DecodeEscape(s).value.1;
      assert PercentDecode(s) == Cons(c, PercentDecode(s[len..]));
      if s[0] == '%' {
        assert !EscapesPlus(s, 0);
        EscapeNotPlus(s);
      }
      var t := s[len..];
      forall i ensures !EscapesPlus(t, i) {
        assert !EscapesPlus(s, i + len);
      }
      assert forall x :: x in t ==> x in s;
      PlusOnlyFromEscape(t);
    }
  }

  /** An escape decodes to a plus sign only if it is `%2B` or `%2b`. */
  lemma EscapeNotPlus(s: string)
    requires |s| > 0 && s[0] == '%' && DecodeEscape(s).Some?
    requires !EscapesPlus(s, 0)
    ensures DecodeEscape(s).value.0 != '+'
  {
  }

  /**
   * A plus sign survives key decoding only where the raw key wrote it as
   * `%2B` (or `%2b`): every literal `+` has become a space.
   */
  lemma NoPlusSurvives(raw: string)
    requires forall i :: !EscapesPlus(raw, i)
    ensures DecodeKey(raw).Some? ==> '+' !in DecodeKey(raw).value
  {
    var s := ReplacePlus(raw);
    forall i ensures !EscapesPlus(s, i) {
      assert !EscapesPlus(raw, i);
    }
    PlusOnlyFromEscape(s);
  }
}
