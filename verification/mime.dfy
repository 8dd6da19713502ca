/** `get_mime_type` of `util_js.hpp`: the `data:` URL prefix for a file,
    chosen by the file's extension. */
module Mime {
  import opened Results

  /** The extensions the table knows, the dot included. */
  const MimeTypes: map<string, string> := map[
    ".txt" := "text/plain",
    ".html" := "text/html",
    ".css" := "text/css",
    ".js" := "application/javascript",
    ".json" := "application/json",
    ".xml" := "application/xml",
    ".png" := "image/png",
    ".jpg" := "image/jpeg",
    ".jpeg" := "image/jpeg",
    ".gif" := "image/gif",
    ".svg" := "image/svg+xml",
    ".pdf" := "application/pdf",
    ".zip" := "application/zip",
    ".tar" := "application/x-tar",
    ".mp3" := "audio/mpeg",
    ".wav" := "audio/wav",
    ".mp4" := "video/mp4",
    ".avi" := "video/x-msvideo"
  ]

  const OctetStream: string := "application/octet-stream"

  /** `std::string::find_last_of(c)`: the index of the last `c`, if any. */
  function FindLastOf(s: string, c: char): (r: Option<nat>)
    ensures r.None? <==> c !in s
    ensures r.Some? ==> r.value < |s| && s[r.value] == c && c !in s[r.value + 1..]
  {
    if s == [] then None
    else if s[|s| - 1] == c then Some(|s| - 1)
    else
      var p := FindLastOf(s[..|s| - 1], c);
      assert s == s[..|s| - 1] + [s[|s| - 1]];
      match p
      case None => None
      case Some(i) =>
        assert s[i + 1..] == s[..|s| - 1][i + 1..] + [s[|s| - 1]];
        Some(i)
  }

  /** `s` ends with `t`. */
  predicate EndsWith(s: string, t: string)
  {
    |t| <= |s| && s[|s| - |t|..] == t
  }

  /** The suffix the source appends when the data is base64 encoded. */
  function Base64Suffix(base64: bool): string
  {
    if base64 then ";base64" else ""
  }

  /** The type the table gives for the text from the last `.` on; octet-
      stream when there is no `.` or the extension is unknown. */
  function TypeOf(filename: string): (m: string)
    ensures |m| > 0 && ';' !in m
    ensures '.' !in filename ==> m == OctetStream
    ensures forall d :: 0 <= d < |filename| && filename[d] == '.' && '.' !in filename[d + 1..] ==>
      m == if filename[d..] in MimeTypes then MimeTypes[filename[d..]] else OctetStream
  {
    TypesAvoidSemicolon();
    match FindLastOf(filename, '.')
    case None => OctetStream
    case Some(dotPos) =>
      LastDotUnique(filename, dotPos);
      var extension := filename[dotPos..];
      if extension in MimeTypes then MimeTypes[extension] else OctetStream
  }

  /** Only one `.` has no `.` after it. */
  lemma LastDotUnique(s: string, p: nat)
    requires p < |s| && s[p] == '.' && '.' !in s[p + 1..]
    ensures forall d :: 0 <= d < |s| && s[d] == '.' && '.' !in s[d + 1..] ==> d == p
  {
  }

  /** `get_mime_type(filename, base64)`: `data:`, the type of the file's
      extension, then `;base64` if asked for. */
  function GetMimeType(filename: string, base64: bool): (r: string)
    ensures '.' !in filename ==> r == "data:" + OctetStream + Base64Suffix(base64)
  {
    "data:" + TypeOf(filename) + Base64Suffix(base64)
  }

  /** Every type the table holds is non-empty and lacks a `;`. */
  lemma TypesAvoidSemicolon()
    ensures forall e :: e in MimeTypes ==> |MimeTypes[e]| > 0 && ';' !in MimeTypes[e]
    ensures ';' !in OctetStream
  {
  }

  /** The result is a `data:` URL prefix, and it ends with `;base64`
      exactly when base64 data was asked for. */
  lemma {:induction false} DataUrlPrefix(filename: string, base64: bool)
    ensures |GetMimeType(filename, base64)| > 5
    ensures GetMimeType(filename, base64)[..5] == "data:"
    ensures EndsWith(GetMimeType(filename, base64), ";base64") <==> base64
  {
    var mimeType := TypeOf(filename);
    var r := GetMimeType(filename, base64);
    assert r[..5] == "data:";
    if !base64 {
      assert r == "data:" + mimeType;
      assert ';' !in r;
      assert |r| >= 7 ==> r[|r| - 7..][0] != ';';
    }
  }

  /** Every extension of the table is a `.` followed by no other `.`. */
  lemma ExtensionsHaveOneDot()
    ensures forall e :: e in MimeTypes ==> |e| > 0 && e[0] == '.' && '.' !in e[1..]
  {
  }

  /** Whatever comes before it, a known extension at the end of the name
      decides the type. */
  lemma {:induction false} KnownExtension(stem: string, ext: string, base64: bool)
    requires ext in MimeTypes
    ensures GetMimeType(stem + ext, base64) == "data:" + MimeTypes[ext] + Base64Suffix(base64)
  {
    ExtensionsHaveOneDot();
    var filename := stem + ext;
    var d := |stem|;
    assert filename[d..] == ext;
    assert filename[d + 1..] == ext[1..];
  }
}
