/** The request-line recogniser: the grammar of the POSIX extended regular
    expression `^GET /([^ ]*) HTTP/1`, written out. `regexec` reads the
    buffer as a C string, so a NUL ends the text it can match. */
module RequestLine {
  import opened Octets
  import opened Wrappers

  const GET_PREFIX: seq<byte> := Ascii("GET /")
  const VERSION_PREFIX: seq<byte> := Ascii(" HTTP/1")

  /** What `([^ ]*)` can match: bytes that are neither a space nor the end
      of the C string. */
  predicate IsTarget(t: seq<byte>)
  {
    forall k | 0 <= k < |t| :: t[k] != SPACE && t[k] != NUL
  }

  /** Length of the longest run of target bytes at the start of `s`. */
  function TargetLength(s: seq<byte>): (n: nat)
    ensures n <= |s| && IsTarget(s[..n])
    ensures n < |s| ==> s[n] == SPACE || s[n] == NUL
  {
    if s == [] || s[0] == SPACE || s[0] == NUL then 0
    else
      var n := TargetLength(s[1..]);
      assert s[..1 + n] == [s[0]] + s[1..][..n];
      1 + n
  }

  /** The request-line match of `handle_client`: `GET /` at the start, then
      the target, which ends at the first space (or NUL), then ` HTTP/1`.
      Headers, body and the rest of the version are never looked at. */
  function ParseRequestLine(buffer: seq<byte>): (target: Option<seq<byte>>)
    ensures target.Some? ==> IsTarget(target.value) && GET_PREFIX + target.value + VERSION_PREFIX <= buffer
  {
    if |buffer| < |GET_PREFIX| || buffer[..|GET_PREFIX|] != GET_PREFIX then None
    else
      var afterGet := buffer[|GET_PREFIX|..];
      var n := TargetLength(afterGet);
      var rest := afterGet[n..];
      if |rest| < |VERSION_PREFIX| || rest[..|VERSION_PREFIX|] != VERSION_PREFIX then None
      else
        assert buffer == GET_PREFIX + afterGet[..n] + VERSION_PREFIX + rest[|VERSION_PREFIX|..];
        Some(afterGet[..n])
  }

  /** Every line the grammar accepts is recognised, and with exactly its
      target: together with the postcondition of `ParseRequestLine`, a
      buffer is accepted if and only if it starts with `GET /`, a run of
      target bytes and ` HTTP/1`, and that run is unique. */
  lemma ParseRequestLineComplete(buffer: seq<byte>, t: seq<byte>)
    requires IsTarget(t) && GET_PREFIX + t + VERSION_PREFIX <= buffer
    ensures ParseRequestLine(buffer) == Some(t)
  {
    var afterGet := buffer[|GET_PREFIX|..];
    assert afterGet[..|t|] == t;
    assert afterGet[|t|] == VERSION_PREFIX[0] == SPACE;
    TargetRunIsMaximal(afterGet, |t|);
    assert afterGet[|t|..][..|VERSION_PREFIX|] == VERSION_PREFIX;
  }

  /** A run of target bytes ended by a space is the longest one. */
  lemma {:induction false} TargetRunIsMaximal(s: seq<byte>, n: nat)
    requires n < |s| && IsTarget(s[..n]) && s[n] == SPACE
    ensures TargetLength(s) == n
  {
    if n > 0 {
      assert s[1..][..n - 1] == s[..n][1..];
      assert s[0] == s[..n][0];
      TargetRunIsMaximal(s[1..], n - 1);
    }
  }
}
