/** `url_decode`: percent-decoding of a request target (section 2.1 of
    RFC 3986) in one left-to-right pass, with the server's boundary rule:
    a '%' is decoded only when at least two more bytes follow it. */
module PathCodec {
  import opened Octets

  predicate IsHexDigit(c: byte)
  {
    '0' as int <= c <= '9' as int || 'a' as int <= c <= 'f' as int || 'A' as int <= c <= 'F' as int
  }

  function HexValue(c: byte): (v: nat)
    requires IsHexDigit(c)
    ensures v < 16
  {
    if c <= '9' as int then c - '0' as int
    else if c <= 'F' as int then c - 'A' as int + 10
    else c - 'a' as int + 10
  }

  /** The octet `%XY` stands for. */
  function HexPair(x: byte, y: byte): (r: byte)
    requires IsHexDigit(x) && IsHexDigit(y)
    ensures r / 16 == HexValue(x) && r % 16 == HexValue(y)
  {
    16 * HexValue(x) + HexValue(y)
  }

  /** The byte `sscanf(tail, "%2x", &hex_val)` leaves in `hex_val`, where
      `tail` is what follows a '%'. When `tail` starts with two hex digits
      it is the octet they spell. Otherwise the C library may skip white
      space and read further, read a single digit, or store nothing and
      leave `hex_val` uninitialised; that byte is `junk(tail)`. Within one
      target every '%' has a tail of its own length, so `junk` can give
      each of them an unrelated byte. */
  function EscapedByte(tail: seq<byte>, junk: seq<byte> -> byte): (r: byte)
    requires 2 <= |tail|
    ensures IsHexDigit(tail[0]) && IsHexDigit(tail[1]) ==>
      r / 16 == HexValue(tail[0]) && r % 16 == HexValue(tail[1])
    ensures !(IsHexDigit(tail[0]) && IsHexDigit(tail[1])) ==> r == junk(tail)
  {
    if IsHexDigit(tail[0]) && IsHexDigit(tail[1]) then HexPair(tail[0], tail[1]) else junk(tail)
  }

  /** The decoded string. Every step emits exactly one byte: an escape
      consumes three input bytes, anything else one, so the output is never
      longer than the input. */
  function Decode(src: seq<byte>, junk: seq<byte> -> byte): (r: seq<byte>)
    ensures |r| <= |src|
    decreases |src|
  {
    if src == [] then []
    else if src[0] == PERCENT && 2 < |src| then [EscapedByte(src[1..], junk)] + Decode(src[3..], junk)
    else [src[0]] + Decode(src[1..], junk)
  }

  /** `url_decode`: the index loop writing into a freshly allocated buffer. */
  method UrlDecode(src: seq<byte>, junk: seq<byte> -> byte) returns (decoded: seq<byte>)
    ensures decoded == Decode(src, junk)
  {
    var buffer := new byte[|src| + 1];
    var decodedLen := 0;
    var i := 0;
    while i < |src|
      invariant 0 <= decodedLen <= i <= |src|
      invariant buffer[..decodedLen] + Decode(src[i..], junk) == Decode(src, junk)
    {
      ghost var done := buffer[..decodedLen];
      ghost var at := i;
      if src[i] == PERCENT && i + 2 < |src| {
        buffer[decodedLen] := EscapedByte(src[i + 1..], junk);
        i := i + 2;
      } else {
        buffer[decodedLen] := src[i];
      }
      i := i + 1;
      DecodeStep(src, at, i, done, buffer[decodedLen], junk);
      assert buffer[..decodedLen + 1] == done + [buffer[decodedLen]];
      decodedLen := decodedLen + 1;
    }
    buffer[decodedLen] := NUL;
    decoded := buffer[..decodedLen];
  }

  /** One step of the scan, from position `at` to position `next`, emits
      the byte `out`. */
  lemma DecodeStep(src: seq<byte>, at: nat, next: nat, done: seq<byte>, out: byte,
                   junk: seq<byte> -> byte)
    requires at < |src| && done + Decode(src[at..], junk) == Decode(src, junk)
    requires src[at] == PERCENT && at + 2 < |src| ==>
      next == at + 3 && out == EscapedByte(src[at + 1..], junk)
    requires !(src[at] == PERCENT && at + 2 < |src|) ==> next == at + 1 && out == src[at]
    ensures next <= |src| && (done + [out]) + Decode(src[next..], junk) == Decode(src, junk)
  {
    var t := src[at..];
    assert t[next - at..] == src[next..];
    if src[at] == PERCENT && at + 2 < |src| {
      assert t[1..] == src[at + 1..];
      assert Decode(t, junk) == [out] + Decode(t[3..], junk);
    } else {
      assert Decode(t, junk) == [out] + Decode(t[1..], junk);
    }
  }

  /** A string without '%' decodes to itself. */
  lemma {:induction false} DecodeNoPercent(src: seq<byte>, junk: seq<byte> -> byte)
    requires PERCENT !in src
    ensures Decode(src, junk) == src
    decreases |src|
  {
    if src != [] {
      DecodeNoPercent(src[1..], junk);
    }
  }

  /** The scan of `p` ends exactly at its end, whatever follows, when neither
      of its last two bytes is a '%'. */
  predicate ScanEndsAtEnd(p: seq<byte>)
  {
    forall k | 0 <= k < |p| && |p| <= k + 2 :: p[k] != PERCENT
  }

  /** `junk` as a prefix `p` of `p + q` sees it: the tail after a '%' in `p`
      runs on into `q`. */
  function Within(junk: seq<byte> -> byte, q: seq<byte>): (j: seq<byte> -> byte)
    ensures forall t :: j(t) == junk(t + q)
  {
    t => junk(t + q)
  }

  /** Decoding splits at such a point; the bytes `junk` decides for the
      escapes in `p` may depend on what follows `p`. */
  lemma {:induction false} DecodeAppend(p: seq<byte>, q: seq<byte>, junk: seq<byte> -> byte)
    requires ScanEndsAtEnd(p)
    ensures Decode(p + q, junk) == Decode(p, Within(junk, q)) + Decode(q, junk)
    decreases |p|
  {
    if p == [] {
      assert p + q == q;
    } else if p[0] == PERCENT && 2 < |p| {
      assert (p + q)[1..] == p[1..] + q;
      assert (p + q)[3..] == p[3..] + q;
      DecodeAppend(p[3..], q, junk);
    } else {
      assert p[0] != PERCENT;
      assert (p + q)[1..] == p[1..] + q;
      DecodeAppend(p[1..], q, junk);
    }
  }

  /** A '%' reached by the scan and followed by two hex digits becomes the
      one octet they spell, and the scan resumes three bytes later. */
  lemma DecodeEscape(p: seq<byte>, x: byte, y: byte, s: seq<byte>, junk: seq<byte> -> byte)
    requires ScanEndsAtEnd(p) && IsHexDigit(x) && IsHexDigit(y)
    ensures Decode(p + [PERCENT, x, y] + s, junk) ==
            Decode(p, Within(junk, [PERCENT, x, y] + s)) + [HexPair(x, y)] + Decode(s, junk)
  {
    var q := [PERCENT, x, y] + s;
    assert p + [PERCENT, x, y] + s == p + q;
    DecodeAppend(p, q, junk);
    assert q[1..] == [x, y] + s && q[3..] == s;
    assert Decode(q, junk) == [HexPair(x, y)] + Decode(s, junk);
  }

  /** A '%' reached by the scan and not followed by two hex digits becomes
      the byte `junk` gives for everything after it, and the scan resumes
      three bytes later. */
  lemma DecodeOtherEscape(p: seq<byte>, x: byte, y: byte, s: seq<byte>, junk: seq<byte> -> byte)
    requires ScanEndsAtEnd(p) && !(IsHexDigit(x) && IsHexDigit(y))
    ensures Decode(p + [PERCENT, x, y] + s, junk) ==
            Decode(p, Within(junk, [PERCENT, x, y] + s)) + [junk([x, y] + s)] + Decode(s, junk)
  {
    var q := [PERCENT, x, y] + s;
    assert p + [PERCENT, x, y] + s == p + q;
    DecodeAppend(p, q, junk);
    assert q[1..] == [x, y] + s && q[3..] == s;
    assert EscapedByte(q[1..], junk) == junk([x, y] + s);
    assert Decode(q, junk) == [junk([x, y] + s)] + Decode(s, junk);
  }

  /** One way the C library fills `hex_val` past a non-hex pair: a tab, then
      two hex digits read as their value. */
  function TabThenDigits(t: seq<byte>): byte
  {
    if 3 <= |t| && t[0] == 9 && IsHexDigit(t[1]) && IsHexDigit(t[2]) then HexPair(t[1], t[2]) else 0
  }

  /** `sscanf("%2x")` skips white space before the digits, so on
      "%\t41%\t42" the server stores 'A' and then 'B'. The model reaches
      that output: its two escapes are not bound to decode alike. */
  lemma WhiteSpaceBeforeDigits()
    ensures Decode([PERCENT, 9, 52, 49, PERCENT, 9, 52, 50], TabThenDigits) == [65, 49, 66, 50]
  {
    var second: seq<byte> := [PERCENT, 9, 52, 50];
    DecodeOtherEscape([], 9, 52, [49] + second, TabThenDigits);
    assert [] + [PERCENT, 9, 52] + ([49] + second) == [PERCENT, 9, 52, 49, PERCENT, 9, 52, 50];
    assert TabThenDigits([9, 52] + ([49] + second)) == 65;
    DecodeNoPercent([49], TabThenDigits);
    DecodeAppend([49], second, TabThenDigits);
    DecodeOtherEscape([], 9, 52, [50], TabThenDigits);
    assert [] + [PERCENT, 9, 52] + [50] == second;
    assert TabThenDigits([9, 52] + [50]) == 66;
    DecodeNoPercent([50], TabThenDigits);
  }

  /** A '%' reached by the scan in one of the last two positions is copied
      literally, and so is the byte after it. */
  lemma DecodeTrailingPercent(p: seq<byte>, t: seq<byte>, junk: seq<byte> -> byte)
    requires ScanEndsAtEnd(p) && |t| <= 1
    ensures Decode(p + [PERCENT] + t, junk) == Decode(p, Within(junk, [PERCENT] + t)) + [PERCENT] + t
  {
    assert p + [PERCENT] + t == p + ([PERCENT] + t);
    DecodeAppend(p, [PERCENT] + t, junk);
    assert ([PERCENT] + t)[1..] == t;
    if t != [] {
      assert t[1..] == [];
    }
  }

  /** The upper-case hex digit of a value below 16. */
  function HexDigit(n: nat): (c: byte)
    requires n < 16
    ensures IsHexDigit(c) && HexValue(c) == n
  {
    if n < 10 then '0' as int + n else 'A' as int + n - 10
  }

  /** Percent-encoding of every octet as `%XY` with upper-case digits. */
  function PercentEncode(s: seq<byte>): (r: seq<byte>)
    ensures |r| == 3 * |s|
  {
    if s == [] then [] else [PERCENT, HexDigit(s[0] / 16), HexDigit(s[0] % 16)] + PercentEncode(s[1..])
  }

  /** The decoder inverts percent-encoding of any byte string. */
  lemma {:induction false} DecodePercentEncode(s: seq<byte>, junk: seq<byte> -> byte)
    ensures Decode(PercentEncode(s), junk) == s
  {
    if s != [] {
      var e := PercentEncode(s);
      assert e[3..] == PercentEncode(s[1..]);
      DecodePercentEncode(s[1..], junk);
    }
  }
}
