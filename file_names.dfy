/** The server's helpers on file names: extension extraction, the MIME
    table, and case-insensitive matching against a directory listing. */
module FileNames {
  import opened Octets
  import opened Wrappers

  /** Index of the last occurrence of `c` in `s` (`strrchr`), or -1. */
  function LastIndexOf(s: seq<byte>, c: byte): (k: int)
    ensures -1 <= k < |s|
    ensures k == -1 <==> c !in s
    ensures k >= 0 ==> s[k] == c && c !in s[k + 1..]
  {
    if s == [] then -1
    else if s[|s| - 1] == c then |s| - 1
    else LastIndexOf(s[..|s| - 1], c)
  }

  /** `get_file_extension`: the text after the last '.', or empty when the
      name has no '.' or its only '.' is its first byte. */
  function GetFileExtension(fileName: seq<byte>): (ext: seq<byte>)
    ensures DOT !in ext
    ensures ext != [] ==>
      |ext| + 1 < |fileName| &&
      fileName[|fileName| - |ext| - 1] == DOT &&
      fileName[|fileName| - |ext|..] == ext
    ensures ext == [] <==>
      |fileName| == 0 || DOT !in fileName[1..] || fileName[|fileName| - 1] == DOT
  {
    var dot := LastIndexOf(fileName, DOT);
    if dot <= 0 then [] else fileName[dot + 1..]
  }

  const HTML: seq<byte> := Ascii("html")
  const HTM: seq<byte> := Ascii("htm")
  const TXT: seq<byte> := Ascii("txt")
  const JPG: seq<byte> := Ascii("jpg")
  const JPEG: seq<byte> := Ascii("jpeg")
  const PNG: seq<byte> := Ascii("png")

  const TEXT_HTML: seq<byte> := Ascii("text/html")
  const TEXT_PLAIN: seq<byte> := Ascii("text/plain")
  const IMAGE_JPEG: seq<byte> := Ascii("image/jpeg")
  const IMAGE_PNG: seq<byte> := Ascii("image/png")
  const OCTET_STREAM: seq<byte> := Ascii("application/octet-stream")

  /** The longest content type in the table. */
  const MAX_MIME_LENGTH: nat := 24

  /** The MIME table, keyed by lower-case extension. */
  const MIME_TABLE: map<seq<byte>, seq<byte>> := map[
    HTML := TEXT_HTML, HTM := TEXT_HTML, TXT := TEXT_PLAIN,
    JPG := IMAGE_JPEG, JPEG := IMAGE_JPEG, PNG := IMAGE_PNG
  ]

  /** The content type the table gives a lower-case extension. */
  function TableLookup(key: seq<byte>): seq<byte>
  {
    if key in MIME_TABLE then MIME_TABLE[key] else OCTET_STREAM
  }

  /** `get_mime_type`: the chain of `strcasecmp` tests. */
  function GetMimeType(fileExt: seq<byte>): (mime: seq<byte>)
    ensures |mime| <= MAX_MIME_LENGTH
  {
    if EqualIgnoringCase(fileExt, HTML) || EqualIgnoringCase(fileExt, HTM) then
      TEXT_HTML
    else if EqualIgnoringCase(fileExt, TXT) then
      TEXT_PLAIN
    else if EqualIgnoringCase(fileExt, JPG) || EqualIgnoringCase(fileExt, JPEG) then
      IMAGE_JPEG
    else if EqualIgnoringCase(fileExt, PNG) then
      IMAGE_PNG
    else
      OCTET_STREAM
  }

  /** The six entries of the table, read back, and its keys are lower case. */
  lemma MimeTableEntries()
    ensures MIME_TABLE.Keys == {HTML, HTM, TXT, JPG, JPEG, PNG}
    ensures MIME_TABLE[HTML] == MIME_TABLE[HTM] == TEXT_HTML
    ensures MIME_TABLE[TXT] == TEXT_PLAIN
    ensures MIME_TABLE[JPG] == MIME_TABLE[JPEG] == IMAGE_JPEG
    ensures MIME_TABLE[PNG] == IMAGE_PNG
    ensures forall key | key in MIME_TABLE :: Lower(key) == key
  {
    assert HTML[0] != JPEG[0];
    assert HTM[0] != TXT[0] && HTM[0] != JPG[0] && HTM[0] != PNG[0];
    assert TXT[0] != JPG[0] && TXT[0] != PNG[0] && JPG[0] != PNG[0];
    assert Lower(HTML) == HTML && Lower(HTM) == HTM && Lower(TXT) == TXT;
    assert Lower(JPG) == JPG && Lower(JPEG) == JPEG && Lower(PNG) == PNG;
  }

  /** Matching a lower-case key ignoring case is matching it after lower-casing. */
  lemma MatchesLowerKey(ext: seq<byte>, key: seq<byte>)
    requires Lower(key) == key
    ensures EqualIgnoringCase(ext, key) <==> Lower(ext) == key
  {
    EqualIgnoringCaseIsLowerEqual(ext, key);
  }

  /** `get_mime_type` is total and a case-insensitive table lookup:
      html/htm, txt, jpg/jpeg and png get their entry in any case mix, and
      everything else, the empty extension included, gets
      `application/octet-stream`. */
  lemma MimeTypeIsTableLookup(fileExt: seq<byte>)
    ensures GetMimeType(fileExt) == TableLookup(Lower(fileExt))
  {
    MimeTableEntries();
    MatchesLowerKey(fileExt, HTML);
    MatchesLowerKey(fileExt, HTM);
    MatchesLowerKey(fileExt, TXT);
    MatchesLowerKey(fileExt, JPG);
    MatchesLowerKey(fileExt, JPEG);
    MatchesLowerKey(fileExt, PNG);
  }

  /** The MIME type does not depend on the case of the extension. */
  lemma MimeTypeIgnoresCase(a: seq<byte>, b: seq<byte>)
    requires EqualIgnoringCase(a, b)
    ensures GetMimeType(a) == GetMimeType(b)
  {
    EqualIgnoringCaseIsLowerEqual(a, b);
    MimeTypeIsTableLookup(a);
    MimeTypeIsTableLookup(b);
  }

  /** `case_insensitive_compare`: walks both strings while neither has
      ended, failing at the first position whose lower-cased bytes differ,
      and then succeeds only if both ended together. */
  method CaseInsensitiveCompare(s1: seq<byte>, s2: seq<byte>) returns (equal: bool)
    ensures equal <==> EqualIgnoringCase(s1, s2)
  {
    var i := 0;
    while i < |s1| && i < |s2|
      invariant 0 <= i <= |s1| && i <= |s2|
      invariant forall k | 0 <= k < i :: ToLower(s1[k]) == ToLower(s2[k])
    {
      if ToLower(s1[i]) != ToLower(s2[i]) {
        return false;
      }
      i := i + 1;
    }
    equal := |s1| == |s2|;
  }

  /** `get_file_case_insensitive` over a directory listing in `readdir`
      order; `dir` is None when `opendir` fails. The result is the first
      entry that matches ignoring case, or None. */
  method GetFileCaseInsensitive(dir: Option<seq<seq<byte>>>, fileName: seq<byte>)
    returns (found: Option<seq<byte>>)
    ensures dir.None? ==> found.None?
    ensures dir.Some? && found.None? ==>
      forall k | 0 <= k < |dir.value| :: !EqualIgnoringCase(dir.value[k], fileName)
    ensures found.Some? ==>
      dir.Some? && exists k | 0 <= k < |dir.value| ::
        found.value == dir.value[k] && EqualIgnoringCase(dir.value[k], fileName) &&
        forall j | 0 <= j < k :: !EqualIgnoringCase(dir.value[j], fileName)
  {
    if dir.None? {
      return None;
    }
    var entries := dir.value;
    found := None;
    var i := 0;
    while i < |entries|
      invariant 0 <= i <= |entries|
      invariant forall j | 0 <= j < i :: !EqualIgnoringCase(entries[j], fileName)
    {
      var matches := CaseInsensitiveCompare(entries[i], fileName);
      if matches {
        found := Some(entries[i]);
        break;
      }
      i := i + 1;
    }
  }
}
