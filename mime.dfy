/** The extension to content-type table used for GET and PROPFIND on files. */
module Mime {
  import opened PhpStrings

  const Fallback: Str := "application/octet-stream"

  /** The table, keyed by lower-case extension. */
  const Types: map<Str, Str> := map[
    "txt" := "text/plain", "html" := "text/html", "php" := "text/plain",
    "jpg" := "image/jpeg", "png" := "image/png", "gif" := "image/gif", "svg" := "image/svg+xml",
    "mp4" := "video/mp4", "mp3" := "audio/mpeg", "pdf" := "application/pdf",
    "zip" := "application/zip", "rar" := "application/octet-stream"
  ]

  /** `mime($f)`: the table entry for the lower-cased extension, else the fallback. */
  function Mime(f: Str): (r: Str)
    ensures r in Types.Values || r == Fallback
    ensures Lower(Extension(f)) in Types ==> r == Types[Lower(Extension(f))]
    ensures Lower(Extension(f)) !in Types ==> r == Fallback
  {
    var x := Lower(Extension(f));
    if x in Types then Types[x] else Fallback
  }

  /** The lookup ignores the case of the extension: "A.TXT" and "a.txt" get the same type. */
  lemma MimeIgnoresCase(f: Str, g: Str)
    requires |Extension(f)| == |Extension(g)|
    requires forall j :: 0 <= j < |Extension(f)| ==> Lower([Extension(f)[j]]) == Lower([Extension(g)[j]])
    ensures Mime(f) == Mime(g)
  {
    var a, b := Extension(f), Extension(g);
    forall j | 0 <= j < |a|
      ensures Lower(a)[j] == Lower(b)[j]
    {
      assert Lower([a[j]])[0] == Lower(a)[j];
      assert Lower([b[j]])[0] == Lower(b)[j];
    }
    assert Lower(a) == Lower(b);
  }
}
