/** Bytes as the server handles them: C `char` buffers, compared and
    lower-cased in the C locale (the program never calls `setlocale`). */
module Octets {

  /** One octet of a request, a path or a file. */
  type byte = b: int | 0 <= b < 256

  const NUL: byte := 0
  const SPACE: byte := 32
  const PERCENT: byte := 37
  const DOT: byte := 46

  /** The bytes of a string literal; every literal used is ASCII, so each
      character is its own code. */
  function Ascii(s: string): (r: seq<byte>)
    ensures |r| == |s|
  {
    seq(|s|, i requires 0 <= i < |s| => s[i] as int % 256)
  }

  /** `tolower` in the C locale: only 'A'..'Z' change. */
  function ToLower(c: byte): (r: byte)
    ensures 'A' as int <= c <= 'Z' as int ==> r == c + ('a' as int - 'A' as int)
    ensures !('A' as int <= c <= 'Z' as int) ==> r == c
  {
    if 65 <= c <= 90 then c + 32 else c
  }

  /** A string with every byte passed through `ToLower`. */
  function Lower(s: seq<byte>): (r: seq<byte>)
    ensures |r| == |s|
    ensures forall i | 0 <= i < |s| :: r[i] == ToLower(s[i])
  {
    seq(|s|, i requires 0 <= i < |s| => ToLower(s[i]))
  }

  /** Equality ignoring ASCII case, as `strcasecmp(a, b) == 0` decides it:
      same length, and the same byte at every position after lower-casing. */
  predicate EqualIgnoringCase(a: seq<byte>, b: seq<byte>)
  {
    |a| == |b| && forall i | 0 <= i < |a| :: ToLower(a[i]) == ToLower(b[i])
  }

  lemma EqualIgnoringCaseIsLowerEqual(a: seq<byte>, b: seq<byte>)
    ensures EqualIgnoringCase(a, b) <==> Lower(a) == Lower(b)
  {
    if Lower(a) == Lower(b) {
      forall i | 0 <= i < |a| ensures ToLower(a[i]) == ToLower(b[i]) {
        assert Lower(a)[i] == Lower(b)[i];
      }
    }
  }

  lemma EqualIgnoringCaseReflexive(a: seq<byte>)
    ensures EqualIgnoringCase(a, a)
  {
  }

  lemma EqualIgnoringCaseSymmetric(a: seq<byte>, b: seq<byte>)
    ensures EqualIgnoringCase(a, b) <==> EqualIgnoringCase(b, a)
  {
  }

  lemma EqualIgnoringCaseTransitive(a: seq<byte>, b: seq<byte>, c: seq<byte>)
    requires EqualIgnoringCase(a, b) && EqualIgnoringCase(b, c)
    ensures EqualIgnoringCase(a, c)
  {
  }

  /** The C string a buffer holds: everything before its first NUL. */
  function UpToNul(s: seq<byte>): (r: seq<byte>)
    ensures NUL !in r
    ensures |r| <= |s| && r == s[..|r|]
    ensures |r| < |s| ==> s[|r|] == NUL
    ensures NUL !in s ==> r == s
  {
    if s == [] || s[0] == NUL then [] else [s[0]] + UpToNul(s[1..])
  }
}
