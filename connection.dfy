/** `handle_client`: one receive, the request-line match, decoding of the
    target, the response, and at most one send. The socket, the file system
    and the C library's unspecified answers are parameters. */
module Connection {
  import opened Octets
  import opened Wrappers
  import opened FileNames
  import opened PathCodec
  import opened RequestLine
  import opened Response

  /** What the peer sees on the connection before it is closed. */
  datatype Outcome = NothingSent | Sent(bytes: seq<byte>)

  /** The path `open` is given for a target: the decoded name, read as a C
      string, so a decoded `%00` ends it. */
  function RequestedPath(target: seq<byte>, junk: seq<byte> -> byte): (path: seq<byte>)
    ensures NUL !in path && |path| <= |target|
  {
    UpToNul(Decode(target, junk))
  }

  /** A target the parser accepted that holds no '%' is opened as it is. */
  lemma PlainTargetIsPath(target: seq<byte>, junk: seq<byte> -> byte)
    requires IsTarget(target) && PERCENT !in target
    ensures RequestedPath(target, junk) == target
  {
    DecodeNoPercent(target, junk);
    assert NUL !in target by {
      forall k | 0 <= k < |target| ensures target[k] != NUL {}
    }
  }

  /** `handle_client` for one connection. `bytesReceived` is what `recv`
      returned and `buffer` the bytes it stored; `fs` says what opening and
      reading a path yields. Nothing is sent when the receive fails or the
      request line does not match; otherwise exactly one buffer is sent,
      the response for the decoded target and its extension. */
  method HandleClient(bytesReceived: int, buffer: seq<byte>, fs: seq<byte> -> FileState,
                      junk: seq<byte> -> byte)
    returns (outcome: Outcome)
    requires bytesReceived > 0 ==> bytesReceived == |buffer| <= BUFFER_SIZE
    ensures outcome == NothingSent <==> bytesReceived <= 0 || ParseRequestLine(buffer) == None
    ensures outcome.Sent? ==>
      var path := RequestedPath(ParseRequestLine(buffer).value, junk);
      outcome.bytes == HttpResponse(GetMimeType(GetFileExtension(path)), fs(path))
  {
    if bytesReceived <= 0 {
      return NothingSent;
    }
    var target := ParseRequestLine(buffer);
    if target.None? {
      return NothingSent;
    }
    var decoded := UrlDecode(target.value, junk);
    var fileName := UpToNul(decoded);
    var fileExt := GetFileExtension(fileName);
    var response := new byte[2 * BUFFER_SIZE];
    var responseLen := BuildHttpResponse(fileExt, fs(fileName), response);
    outcome := Sent(response[..responseLen]);
  }
}
