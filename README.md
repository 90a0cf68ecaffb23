# A verified model of the request path of a minimal static HTTP server

The server (`webserver.c`) accepts TCP connections, starts one detached
thread per connection and, in that thread, performs one request/response
cycle: a single `recv`, a match of the request line against
`^GET /([^ ]*) HTTP/1`, percent-decoding of the target, the extension and
MIME type of the decoded name, and one `send` of either a `200 OK` response
carrying the file's bytes or a fixed `404 Not Found` response. There is no
`Content-Length`: the body ends where the connection is closed.

This project models that per-connection pipeline in Dafny, apart from the
sockets, threads and system calls, and proves what each step promises.

- `octets.dfy` (module `Octets`): bytes (`byte`, 0..255), ASCII
  lower-casing in the C locale, equality ignoring case as `strcasecmp`
  decides it, and the C-string view of a buffer (everything before its
  first NUL).
- `wrappers.dfy` (module `Wrappers`): `Option`, for C's NULL-or-value
  returns.
- `file_names.dfy` (module `FileNames`): `get_file_extension`,
  `get_mime_type` against a MIME table, `case_insensitive_compare` (a
  loop) and `get_file_case_insensitive` (a loop with early exit over a
  given directory listing).
- `path_codec.dfy` (module `PathCodec`): `url_decode` as an index loop
  writing into an allocated buffer, proved equal to a recursive decoder,
  with its boundary rule: a `%` is decoded only when two more bytes follow
  it.
- `request_line.dfy` (module `RequestLine`): the grammar of the request-line
  regular expression, written out, with its accept set proved both ways.
- `response.dfy` (module `Response`): `build_http_response` writing into the
  caller's array, with the `read` loop accumulating `response_len` up to
  `BUFFER_SIZE` (104857600).
- `connection.dfy` (module `Connection`): `handle_client`, returning either
  "nothing sent" or the one buffer sent.

The outside world is given as parameters: the bytes and the return value of
`recv`; the file system as a function from a path to `NotFound` (the `open`
failed) or `Opened(chunks)`, where `chunks` lists what successive `read`
calls deliver; the directory listing as an optional sequence of names
(`None` when `opendir` fails); and the byte `sscanf("%2x")` stores after a
`%` that is not followed by two hex digits, as a function `junk` of the rest
of the target after that `%`.

## Model

| member | source | states |
|---|---|---|
| Octets.ToLower | webserver.c:50 | `tolower` in the C locale: 'A'..'Z' become 'a'..'z' and every other byte is unchanged |
| Octets.EqualIgnoringCase | webserver.c:33-39 | `strcasecmp(a, b) == 0`: the same length and the same byte at every position after `tolower` |
| Octets.EqualIgnoringCaseIsLowerEqual | webserver.c:48-57 | two strings are equal ignoring case exactly when their lower-cased forms are equal |
| Octets.EqualIgnoringCaseReflexive | webserver.c:48-57 | every string equals itself ignoring case |
| Octets.EqualIgnoringCaseSymmetric | webserver.c:48-57 | equality ignoring case does not depend on the order of the two strings |
| Octets.EqualIgnoringCaseTransitive | webserver.c:48-57 | equality ignoring case is transitive |
| Octets.UpToNul | webserver.c:143-152 | the C string a buffer holds has no NUL, is a prefix of the buffer, stops at the first NUL, and is the whole buffer when it holds no NUL |
| FileNames.LastIndexOf | webserver.c:28 | `strrchr`: the index of the last occurrence of the byte, or -1 exactly when it does not occur; nothing after the index is that byte |
| FileNames.GetFileExtension | webserver.c:27-30 | the extension holds no '.'; a non-empty one ends the name and is preceded by a '.' that is not the name's first byte; it is empty exactly when the name is empty, has no '.' after its first byte, or ends with '.' |
| FileNames.GetMimeType | webserver.c:33-45 | every answer is at most 24 bytes long |
| FileNames.MimeTableEntries | webserver.c:34-43 | the table maps html and htm to text/html, txt to text/plain, jpg and jpeg to image/jpeg, png to image/png, has no other key, and its keys are lower case |
| FileNames.MimeTypeIsTableLookup | webserver.c:33-45 | the `strcasecmp` chain is the table lookup of the lower-cased extension, with application/octet-stream for every extension not in the table, the empty one included |
| FileNames.MimeTypeIgnoresCase | webserver.c:33-45 | two extensions equal ignoring case get the same MIME type |
| FileNames.CaseInsensitiveCompare | webserver.c:48-57 | the pointer loop returns true exactly when both strings have the same length and agree at every position after lower-casing |
| FileNames.GetFileCaseInsensitive | webserver.c:60-76 | no answer when `opendir` fails; otherwise the first listed entry that matches ignoring case, and no answer only when no entry matches |
| PathCodec.HexValue | webserver.c:86 | the value `%x` reads from one hex digit, below 16 |
| PathCodec.HexPair | webserver.c:86 | the octet two hex digits spell: the first digit is its high nibble, the second its low nibble |
| PathCodec.EscapedByte | webserver.c:85-87 | what `sscanf("%2x")` leaves in `hex_val` for the bytes after a '%': the octet of two leading hex digits, otherwise the byte `junk` gives for the whole rest of the target |
| PathCodec.Decode | webserver.c:79-95 | the decoded string is never longer than the input |
| PathCodec.UrlDecode | webserver.c:79-95 | the index loop with its `i += 2` skip writes exactly the decoder's output into its buffer |
| PathCodec.DecodeNoPercent | webserver.c:83-92 | a string without '%' decodes to itself |
| PathCodec.DecodeAppend | webserver.c:83-92 | decoding splits at any point whose last two bytes hold no '%': the scan reaches that point exactly, whatever follows; the bytes stored for non-hex escapes before it may depend on what follows |
| PathCodec.DecodeEscape | webserver.c:84-88 | a '%' reached by the scan with two hex digits after it becomes the one byte they spell, and the scan resumes three bytes later |
| PathCodec.DecodeOtherEscape | webserver.c:84-88 | a '%' reached by the scan without two hex digits after it becomes the byte `junk` gives for the rest of the target, and the scan still resumes three bytes later |
| PathCodec.WhiteSpaceBeforeDigits | webserver.c:85-87 | with `sscanf` skipping a tab before two digits, "%\t41%\t42" decodes to "A1B2": two escapes with equal byte pairs can store different bytes |
| PathCodec.DecodeTrailingPercent | webserver.c:84-91 | a '%' reached by the scan in one of the last two positions is copied literally, with the byte after it |
| PathCodec.HexDigit | webserver.c:86 | the digit written for a value below 16 is a hex digit that `%x` reads back as that value |
| PathCodec.DecodePercentEncode | webserver.c:83-92 | decoding inverts the percent-encoding of every byte of any string |
| RequestLine.ParseRequestLine | webserver.c:139-144 | an accepted buffer starts with `GET /`, then the target, then ` HTTP/1`; the target holds no space and no NUL |
| RequestLine.ParseRequestLineComplete | webserver.c:139-144 | every buffer that starts with `GET /`, a run of bytes that are neither space nor NUL, and ` HTTP/1` is accepted with exactly that run as target, so acceptance is an if-and-only-if and the target is unique |
| RequestLine.TargetLength | webserver.c:139 | `([^ ]*)` matches the longest run of bytes before the first space or NUL |
| Response.Stream | webserver.c:122 | the bytes successive `read` calls deliver: empty exactly when the first call returns 0 or -1, and starting with what the first call delivers |
| Response.OkHeader | webserver.c:103 | the `snprintf` header: the status and `Content-Type: ` text, then the MIME type, then the blank line, with exactly those lengths |
| Response.OkHeaderInjective | webserver.c:103 | different MIME types give different headers |
| Response.Store | webserver.c:107-118 | `memcpy`/`snprintf` into the buffer at an offset: the bytes before the offset stay, the copied bytes follow them, and every byte after the copy is unchanged |
| Response.HttpResponse | webserver.c:100-127 | on a failed `open` the response is exactly the 404 literal whatever the type; otherwise it starts with the 200 header for the MIME type, continues with a prefix of the file's bytes, and holds the whole file or fills `BUFFER_SIZE`; it never exceeds `BUFFER_SIZE` |
| Response.HttpResponseWholeFile | webserver.c:117-124 | a file that fits is sent whole, byte for byte, after the header |
| Response.ReadInto | webserver.c:122 | one `read` delivers at most the room left and at most what the file still has, returns 0 only at end of file or with no room, and what follows is the rest of the file |
| Response.ReadLoop | webserver.c:121-124 | `response_len` starts at the header length and strictly grows from pass to pass (the recorded lengths), ends as the header length plus the bytes read, never passes `BUFFER_SIZE`, and the loop ends with the whole file or a full buffer |
| Response.BuildHttpResponse | webserver.c:100-127 | the buffer's first `response_len` bytes are the response for the extension's MIME type and the file, and `response_len` is at most `BUFFER_SIZE` |
| Response.StoreFile | webserver.c:113-124 | after a successful `open`, header then read loop leave the 200 response in the buffer |
| Connection.RequestedPath | webserver.c:143-152 | the path given to `open` has no NUL and is no longer than the target |
| Connection.PlainTargetIsPath | webserver.c:143-152 | an accepted target without '%' is opened as it is |
| Connection.HandleClient | webserver.c:131-164 | nothing is sent exactly when `recv` returns 0 or less or the request line does not match; otherwise exactly one buffer is sent, the response for the decoded path's extension and the file at that path |

## Left out

- Socket creation, `bind`, `listen`, the accept loop, `pthread_create` and
  `pthread_detach`, and process exit (webserver.c:166-212): I/O and
  concurrency plumbing with no request logic.
- The POSIX regular-expression engine: the one expression is modelled as
  its grammar.
- `open`, `fstat`, `read`, `opendir`, `readdir`, `recv` and `send` are
  parameters or results: the file system is a function from a path to a
  `FileState`, the directory a list in `readdir` order, `recv` its result.
  `fstat`'s size is never used by the code and is not modelled.
- `send` is taken to deliver the whole buffer; the source does not retry
  partial writes, and the model records only the buffer handed to `send`.
- `recv` does not NUL-terminate its buffer; the model lets the request-line
  match see exactly the received bytes.
- PathCodec.EscapedByte: after a '%' that is not followed by two hex digits,
  `sscanf("%2x")` may skip white space and read digits further on, read a
  single digit, or store nothing and leave `hex_val` uninitialised. The model
  does not spell out these rules: the byte is `junk` applied to the rest of
  the target after the '%'. Every '%' of one target has a rest of its own
  length, so for any one request some `junk` gives each escape the byte the
  program stores. Across different requests `junk` gives the same byte for
  the same rest, which an uninitialised `hex_val` need not.
- The `strcpy` of the extension into `file_ext[32]` overflows for
  extensions of 32 bytes or more; the model passes the whole extension on.
- Allocation and release of the 100 MiB buffers. The NUL written after the
  decoded string is stored but not part of the result.
- C strings are modelled as byte sequences with their length: names from
  `readdir` and the strings compared by `case_insensitive_compare` are
  taken to hold no NUL, as C strings cannot. The decoded path is cut at its
  first NUL, as `open` and `strrchr` read it.
- `get_file_case_insensitive` is not called by `handle_client` in the
  source; it is modelled on its own and the model's `HandleClient` does not
  call it either.
