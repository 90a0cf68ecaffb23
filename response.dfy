/** `build_http_response`: frames a file, or its absence, as one response
    in the caller's buffer. There is no Content-Length header: the body
    ends where the connection is closed. */
module Response {
  import opened Octets
  import opened FileNames

  /** Capacity of the server's buffers: 100 MiB. */
  const BUFFER_SIZE: nat := 104857600

  /** The file as `open` and `read` see it: `open` failed, or it succeeded
      and `chunks` lists what successive `read` calls deliver when given room
      enough. The first empty entry, or the end of the list, is the call
      that returns 0 (end of file) or -1 (an error). */
  datatype FileState = NotFound | Opened(chunks: seq<seq<byte>>)

  /** All bytes the chunks deliver before the first one that returns 0 or -1. */
  function Stream(chunks: seq<seq<byte>>): (r: seq<byte>)
    ensures r == [] <==> chunks == [] || chunks[0] == []
    ensures chunks != [] ==> chunks[0] <= r
  {
    if chunks == [] || chunks[0] == [] then [] else chunks[0] + Stream(chunks[1..])
  }

  const NOT_FOUND_RESPONSE: seq<byte> :=
    Ascii("HTTP/1.1 404 Not Found\r\nContent-Type: text/plain\r\n\r\n404 Not Found")

  const STATUS_OK: seq<byte> := Ascii("HTTP/1.1 200 OK\r\nContent-Type: ")
  const END_OF_HEADER: seq<byte> := Ascii("\r\n\r\n")

  /** The 200 header the server's `snprintf` formats for a content type. */
  function OkHeader(mime: seq<byte>): (h: seq<byte>)
    ensures |h| == |STATUS_OK| + |mime| + |END_OF_HEADER|
    ensures STATUS_OK <= h && h[|STATUS_OK|..|STATUS_OK| + |mime|] == mime
    ensures h[|STATUS_OK| + |mime|..] == END_OF_HEADER
  {
    STATUS_OK + mime + END_OF_HEADER
  }

  /** Different content types get different headers. */
  lemma OkHeaderInjective(m1: seq<byte>, m2: seq<byte>)
    requires OkHeader(m1) == OkHeader(m2)
    ensures m1 == m2
  {
    var h := OkHeader(m1);
    assert |m1| == |m2|;
    assert m1 == h[|STATUS_OK|..|STATUS_OK| + |m1|];
  }

  /** The bytes `build_http_response` leaves in the buffer, for the MIME
      type of the requested extension. On a failed `open` it is the fixed
      404 message, whatever the type. Otherwise it is the 200 header for the
      type, then the file's bytes as far as they fit in `BUFFER_SIZE`: the
      whole file when it fits, a full buffer when it does not. */
  function HttpResponse(mime: seq<byte>, file: FileState): (r: seq<byte>)
    requires |mime| <= MAX_MIME_LENGTH
    ensures |r| <= BUFFER_SIZE
    ensures file.NotFound? ==> r == NOT_FOUND_RESPONSE
    ensures file.Opened? ==>
      OkHeader(mime) <= r && r[|OkHeader(mime)|..] <= Stream(file.chunks) &&
      (|r| == |OkHeader(mime)| + |Stream(file.chunks)| || |r| == BUFFER_SIZE)
  {
    match file
    case NotFound => NOT_FOUND_RESPONSE
    case Opened(chunks) =>
      var header := OkHeader(mime);
      var content := Stream(chunks);
      var room := BUFFER_SIZE - |header|;
      if |content| <= room then header + content else header + content[..room]
  }

  /** When the file fits in the buffer the body is the file, byte for byte. */
  lemma HttpResponseWholeFile(mime: seq<byte>, chunks: seq<seq<byte>>)
    requires |mime| <= MAX_MIME_LENGTH
    requires |OkHeader(mime)| + |Stream(chunks)| <= BUFFER_SIZE
    ensures HttpResponse(mime, Opened(chunks)) == OkHeader(mime) + Stream(chunks)
  {
    var r := HttpResponse(mime, Opened(chunks));
    assert r == OkHeader(mime) + r[|OkHeader(mime)|..];
    assert r[|OkHeader(mime)|..] == Stream(chunks)[..|r| - |OkHeader(mime)|];
  }

  /** Copies `bytes` into `buffer` at `at` (`memcpy`, `snprintf`). */
  method Store(buffer: array<byte>, at: nat, bytes: seq<byte>)
    requires at + |bytes| <= buffer.Length
    modifies buffer
    ensures buffer[..at + |bytes|] == old(buffer[..at]) + bytes
    ensures buffer[at + |bytes|..] == old(buffer[at + |bytes|..])
  {
    for i := 0 to |bytes|
      invariant buffer[..at + i] == old(buffer[..at]) + bytes[..i]
      invariant buffer[at + i..] == old(buffer[at + i..])
    {
      buffer[at + i] := bytes[i];
      assert bytes[..i + 1] == bytes[..i] + [bytes[i]];
    }
  }

  /** One `read(file_fd, buffer + at, room)`: it delivers as much of the
      next pending result as there is room for, and `remaining` is what the
      following calls will deliver. */
  method ReadInto(buffer: array<byte>, at: nat, room: nat, pending: seq<seq<byte>>)
    returns (bytesRead: nat, remaining: seq<seq<byte>>)
    requires at + room <= buffer.Length
    modifies buffer
    ensures bytesRead <= room && bytesRead <= |Stream(pending)|
    ensures bytesRead == 0 <==> room == 0 || Stream(pending) == []
    ensures buffer[..at + bytesRead] == old(buffer[..at]) + Stream(pending)[..bytesRead]
    ensures Stream(remaining) == Stream(pending)[bytesRead..]
  {
    if pending == [] || pending[0] == [] || room == 0 {
      return 0, pending;
    }
    var chunk := pending[0];
    if |chunk| <= room {
      bytesRead, remaining := |chunk|, pending[1..];
    } else {
      bytesRead, remaining := room, [chunk[room..]] + pending[1..];
      assert Stream(remaining) == chunk[room..] + Stream(pending[1..]);
    }
    Store(buffer, at, chunk[..bytesRead]);
    assert Stream(pending) == chunk + Stream(pending[1..]);
    assert Stream(pending)[..bytesRead] == chunk[..bytesRead];
  }

  /** One successful `read` of `n` bytes keeps the read loop's invariant:
      the buffer holds the header and the first `done + n` bytes of the
      file, and the rest of the file is still to come. */
  lemma ReadStep(prefix: seq<byte>, content: seq<byte>, done: nat, n: nat,
                 written: seq<byte>, rest: seq<byte>, restAfter: seq<byte>)
    requires done + n <= |content| && rest == content[done..]
    requires written == (prefix + content[..done]) + rest[..n]
    requires restAfter == rest[n..]
    ensures written == prefix + content[..done + n]
    ensures restAfter == content[done + n..]
  {
    assert content[..done] + rest[..n] == content[..done + n];
  }

  /** The read loop stops with the whole file read, or with the buffer full;
      either way it has read what `HttpResponse` frames. */
  lemma BodyIsWhatFits(mime: seq<byte>, chunks: seq<seq<byte>>, done: nat)
    requires |mime| <= MAX_MIME_LENGTH
    requires done <= |Stream(chunks)| && |OkHeader(mime)| + done <= BUFFER_SIZE
    requires done == |Stream(chunks)| || |OkHeader(mime)| + done == BUFFER_SIZE
    ensures OkHeader(mime) + Stream(chunks)[..done] == HttpResponse(mime, Opened(chunks))
  {
    if done == |Stream(chunks)| {
      assert Stream(chunks)[..done] == Stream(chunks);
    }
  }

  /** The read loop of `build_http_response`: `read` into the buffer at
      `responseLen`, with room up to `BUFFER_SIZE`, until a call returns 0
      or -1. `lengths` records `responseLen` before each pass: it starts at
      `start`, only grows, and ends at the final length, which equals
      `start` plus the bytes read and never passes `BUFFER_SIZE`. */
  method ReadLoop(response: array<byte>, start: nat, chunks: seq<seq<byte>>)
    returns (responseLen: nat, ghost lengths: seq<nat>)
    requires start <= BUFFER_SIZE <= response.Length
    modifies response
    ensures start <= responseLen <= BUFFER_SIZE
    ensures responseLen - start <= |Stream(chunks)|
    ensures response[..responseLen] == old(response[..start]) + Stream(chunks)[..responseLen - start]
    ensures responseLen == BUFFER_SIZE || responseLen - start == |Stream(chunks)|
    ensures lengths != [] && lengths[0] == start && lengths[|lengths| - 1] == responseLen
    ensures forall k | 0 < k < |lengths| :: lengths[k - 1] < lengths[k]
  {
    ghost var prefix := response[..start];
    var content := Stream(chunks);
    var pending := chunks;
    responseLen := start;
    lengths := [start];
    while true
      invariant start <= responseLen <= BUFFER_SIZE
      invariant responseLen - start <= |content|
      invariant response[..responseLen] == prefix + content[..responseLen - start]
      invariant Stream(pending) == content[responseLen - start..]
      invariant lengths != [] && lengths[0] == start && lengths[|lengths| - 1] == responseLen
      invariant forall k | 0 < k < |lengths| :: lengths[k - 1] < lengths[k]
      decreases BUFFER_SIZE - responseLen
    {
      ghost var done := responseLen - start;
      var bytesRead;
      bytesRead, pending := ReadInto(response, responseLen, BUFFER_SIZE - responseLen, pending);
      if bytesRead == 0 {
        break;
      }
      ReadStep(prefix, content, done, bytesRead,
               response[..responseLen + bytesRead], content[done..], Stream(pending));
      responseLen := responseLen + bytesRead;
      lengths := lengths + [responseLen];
    }
  }

  /** `build_http_response`: writes the response into the caller's buffer
      and returns `*response_len`. */
  method BuildHttpResponse(fileExt: seq<byte>, file: FileState, response: array<byte>)
    returns (responseLen: nat)
    requires BUFFER_SIZE <= response.Length
    modifies response
    ensures responseLen <= BUFFER_SIZE
    ensures response[..responseLen] == HttpResponse(GetMimeType(fileExt), file)
  {
    var mime := GetMimeType(fileExt);
    if file.NotFound? {
      Store(response, 0, NOT_FOUND_RESPONSE);
      return |NOT_FOUND_RESPONSE|;
    }
    responseLen := StoreFile(mime, file.chunks, response);
  }

  /** The part of `build_http_response` after a successful `open`: the
      header, then the read loop. */
  method StoreFile(mime: seq<byte>, chunks: seq<seq<byte>>, response: array<byte>)
    returns (responseLen: nat)
    requires |mime| <= MAX_MIME_LENGTH && BUFFER_SIZE <= response.Length
    modifies response
    ensures responseLen <= BUFFER_SIZE
    ensures response[..responseLen] == HttpResponse(mime, Opened(chunks))
  {
    var header := OkHeader(mime);
    responseLen := 0;
    Store(response, 0, header);
    responseLen := responseLen + |header|;
    assert response[..responseLen] == header;
    ghost var lengths;
    responseLen, lengths := ReadLoop(response, responseLen, chunks);
    assert response[..responseLen] == header + Stream(chunks)[..responseLen - |header|];
    BodyIsWhatFits(mime, chunks, responseLen - |header|);
  }
}
