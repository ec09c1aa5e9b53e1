/** Text helpers of the file-sharing server (src/file_sharing.rs): `escape_html`, the
    extension-to-MIME table `get_mime_type` and the inline-display table
    `should_display_inline`. */
module Html {
  import opened Wrappers
  import opened Strings
  import FS = FileSystem

  // ---------------------------------------------------------------- escaping

  /** `str::replace(c, rep)` for a single character. */
  function ReplaceChar(s: string, c: char, rep: string): string
  {
    if s == [] then [] else (if s[0] == c then rep else [s[0]]) + ReplaceChar(s[1..], c, rep)
  }

  /** `escape_html`: five replacements, `&` first. */
  function EscapeHtml(s: string): string
  {
    ReplaceChar(ReplaceChar(ReplaceChar(ReplaceChar(ReplaceChar(s, '&', "&amp;"), '<', "&lt;"),
                                        '>', "&gt;"), '"', "&quot;"), '\'', "&#x27;")
  }

  /** The entity each character stands for in HTML text. */
  function EscapeChar(c: char): string
  {
    if c == '&' then "&amp;"
    else if c == '<' then "&lt;"
    else if c == '>' then "&gt;"
    else if c == '"' then "&quot;"
    else if c == '\'' then "&#x27;"
    else [c]
  }

  /** Escaping character by character. */
  function EscapeEach(s: string): string
  {
    if s == [] then [] else EscapeChar(s[0]) + EscapeEach(s[1..])
  }

  lemma {:induction false} ReplaceConcat(a: string, b: string, c: char, rep: string)
    ensures ReplaceChar(a + b, c, rep) == ReplaceChar(a, c, rep) + ReplaceChar(b, c, rep)
  {
    if a != [] {
      assert (a + b)[0] == a[0];
      assert (a + b)[1..] == a[1..] + b;
      ReplaceConcat(a[1..], b, c, rep);
    } else {
      assert a + b == b;
    }
  }

  lemma {:induction false} ReplaceAbsent(s: string, c: char, rep: string)
    requires c !in s
    ensures ReplaceChar(s, c, rep) == s
  {
    if s != [] {
      assert c !in s[1..] by {
        assert forall j :: 0 <= j < |s| - 1 ==> s[1..][j] == s[j + 1];
      }
      ReplaceAbsent(s[1..], c, rep);
      assert s == [s[0]] + s[1..];
    }
  }

  lemma ReplaceSingle(x: char, c: char, rep: string)
    ensures ReplaceChar([x], c, rep) == if x == c then rep else [x]
  {
    assert [x][1..] == [];
  }

  /** Escaping text stops changing it once the characters still to be replaced are
      absent from it. */
  lemma ReplaceTail(s: string, from: nat)
    requires from <= 4
    requires from <= 0 ==> '&' !in s
    requires from <= 1 ==> '<' !in s
    requires from <= 2 ==> '>' !in s
    requires from <= 3 ==> '"' !in s
    requires '\'' !in s
    ensures from == 0 ==> EscapeHtml(s) == s
    ensures from <= 1 ==> ReplaceChar(ReplaceChar(ReplaceChar(ReplaceChar(s, '<', "&lt;"), '>', "&gt;"),
                                                  '"', "&quot;"), '\'', "&#x27;") == s
    ensures from <= 2 ==> ReplaceChar(ReplaceChar(ReplaceChar(s, '>', "&gt;"), '"', "&quot;"), '\'', "&#x27;") == s
    ensures from <= 3 ==> ReplaceChar(ReplaceChar(s, '"', "&quot;"), '\'', "&#x27;") == s
    ensures ReplaceChar(s, '\'', "&#x27;") == s
  {
    ReplaceAbsent(s, '\'', "&#x27;");
    if from <= 3 { ReplaceAbsent(s, '"', "&quot;"); }
    if from <= 2 { ReplaceAbsent(s, '>', "&gt;"); }
    if from <= 1 { ReplaceAbsent(s, '<', "&lt;"); }
    if from == 0 { ReplaceAbsent(s, '&', "&amp;"); }
  }

  lemma EscapeSingle(x: char)
    ensures EscapeHtml([x]) == EscapeChar(x)
  {
    ReplaceSingle(x, '&', "&amp;");
    if x == '&' {
      ReplaceTail("&amp;", 1);
    } else {
      ReplaceSingle(x, '<', "&lt;");
      if x == '<' {
        ReplaceTail("&lt;", 2);
      } else {
        ReplaceSingle(x, '>', "&gt;");
        if x == '>' {
          ReplaceTail("&gt;", 3);
        } else {
          ReplaceSingle(x, '"', "&quot;");
          if x == '"' {
            ReplaceTail("&quot;", 4);
          } else {
            ReplaceSingle(x, '\'', "&#x27;");
          }
        }
      }
    }
  }

  lemma EscapeConcat(a: string, b: string)
    ensures EscapeHtml(a + b) == EscapeHtml(a) + EscapeHtml(b)
  {
    ReplaceConcat(a, b, '&', "&amp;");
    var a1, b1 := ReplaceChar(a, '&', "&amp;"), ReplaceChar(b, '&', "&amp;");
    ReplaceConcat(a1, b1, '<', "&lt;");
    var a2, b2 := ReplaceChar(a1, '<', "&lt;"), ReplaceChar(b1, '<', "&lt;");
    ReplaceConcat(a2, b2, '>', "&gt;");
    var a3, b3 := ReplaceChar(a2, '>', "&gt;"), ReplaceChar(b2, '>', "&gt;");
    ReplaceConcat(a3, b3, '"', "&quot;");
    var a4, b4 := ReplaceChar(a3, '"', "&quot;"), ReplaceChar(b3, '"', "&quot;");
    ReplaceConcat(a4, b4, '\'', "&#x27;");
  }

  /** The chain of replacements is the per-character escape: replacing `&` first means
      no entity introduced by a later replacement is escaped again. */
  lemma {:induction false} EscapeIsPerChar(s: string)
    ensures EscapeHtml(s) == EscapeEach(s)
  {
    if s == [] {
      ReplaceTail(s, 0);
    } else {
      assert s == [s[0]] + s[1..];
      EscapeConcat([s[0]], s[1..]);
      EscapeSingle(s[0]);
      EscapeIsPerChar(s[1..]);
    }
  }

  predicate MarkupFree(s: string)
  {
    forall i :: 0 <= i < |s| ==> s[i] != '<' && s[i] != '>' && s[i] != '"' && s[i] != '\''
  }

  lemma {:induction false} EscapeEachMarkupFree(s: string)
    ensures MarkupFree(EscapeEach(s))
  {
    if s != [] {
      EscapeEachMarkupFree(s[1..]);
      var e, r := EscapeChar(s[0]), EscapeEach(s[1..]);
      assert MarkupFree(e);
      assert forall i :: |e| <= i < |e| + |r| ==> (e + r)[i] == r[i - |e|];
    }
  }

  /** Escaped text contains none of `<`, `>`, `"`, `'`. */
  lemma EscapedIsMarkupFree(s: string)
    ensures MarkupFree(EscapeHtml(s))
  {
    EscapeIsPerChar(s);
    EscapeEachMarkupFree(s);
  }

  /** Text without any of the five special characters is left as it is. */
  lemma EscapeIdentity(s: string)
    requires '&' !in s && '<' !in s && '>' !in s && '"' !in s && '\'' !in s
    ensures EscapeHtml(s) == s
  {
    ReplaceTail(s, 0);
  }

  /** Decoding of the five entities `escape_html` produces. */
  function Unescape(s: string): string
    decreases |s|
  {
    if s == [] then []
    else if s[0] != '&' then [s[0]] + Unescape(s[1..])
    else if StartsWith(s, "&amp;") then "&" + Unescape(s[5..])
    else if StartsWith(s, "&lt;") then "<" + Unescape(s[4..])
    else if StartsWith(s, "&gt;") then ">" + Unescape(s[4..])
    else if StartsWith(s, "&quot;") then "\"" + Unescape(s[6..])
    else if StartsWith(s, "&#x27;") then "'" + Unescape(s[6..])
    else [s[0]] + Unescape(s[1..])
  }

  lemma UnescapeStep(x: char, r: string)
    ensures Unescape(EscapeChar(x) + r) == [x] + Unescape(r)
  {
    if x == '&' {
      UnescapeAmp(r);
    } else if x == '<' {
      UnescapeLt(r);
    } else if x == '>' {
      UnescapeGt(r);
    } else if x == '"' {
      UnescapeQuot(r);
    } else if x == '\'' {
      UnescapeApos(r);
    } else {
      var e := [x] + r;
      assert e[0] == x && e[1..] == r;
    }
  }

  // Each entity decodes to the character it stands for.

  lemma UnescapeAmp(r: string)
    ensures Unescape("&amp;" + r) == "&" + Unescape(r)
  {
    var e := "&amp;" + r;
    assert e[..5] == "&amp;" && e[5..] == r;
  }

  lemma UnescapeLt(r: string)
    ensures Unescape("&lt;" + r) == "<" + Unescape(r)
  {
    var e := "&lt;" + r;
    assert e[1] == 'l' && e[..4] == "&lt;" && e[4..] == r;
  }

  lemma UnescapeGt(r: string)
    ensures Unescape("&gt;" + r) == ">" + Unescape(r)
  {
    var e := "&gt;" + r;
    assert e[1] == 'g' && e[..4] == "&gt;" && e[4..] == r;
  }

  lemma UnescapeQuot(r: string)
    ensures Unescape("&quot;" + r) == "\"" + Unescape(r)
  {
    var e := "&quot;" + r;
    assert e[1] == 'q' && e[..6] == "&quot;" && e[6..] == r;
  }

  lemma UnescapeApos(r: string)
    ensures Unescape("&#x27;" + r) == "'" + Unescape(r)
  {
    var e := "&#x27;" + r;
    assert e[1] == '#' && e[..6] == "&#x27;" && e[6..] == r;
  }

  /** Escaping loses nothing: decoding the entities gives the text back. */
  lemma {:induction false} EscapeRoundTrip(s: string)
    ensures Unescape(EscapeHtml(s)) == s
  {
    EscapeIsPerChar(s);
    EscapeEachRoundTrip(s);
  }

  lemma {:induction false} EscapeEachRoundTrip(s: string)
    ensures Unescape(EscapeEach(s)) == s
  {
    if s != [] {
      UnescapeStep(s[0], EscapeEach(s[1..]));
      EscapeEachRoundTrip(s[1..]);
      assert s == [s[0]] + s[1..];
    }
  }

  // ---------------------------------------------------------------- MIME types

  const OctetStream := "application/octet-stream"

  const ImageExts: set<string> := {"jpg", "jpeg", "png", "gif", "svg", "webp", "bmp", "ico"}
  const VideoExts: set<string> := {"mp4", "webm", "ogv", "mov", "avi", "mkv", "m4v", "wmv", "flv"}
  const AudioExts: set<string> := {"mp3", "wav", "m4a", "aac", "oga", "ogg", "flac"}
  const ArchiveExts: set<string> := {"zip", "tar", "gz"}

  /** Every extension the MIME table names. */
  const KnownExts: set<string> := {
    "html", "htm", "css", "js", "xml", "txt", "md", "rst", "log", "json", "geojson", "ipynb",
    "py", "rs", "go", "php", "rb", "swift", "kt", "yml", "yaml", "toml", "ini", "cfg", "conf",
    "jpg", "jpeg", "png", "gif", "svg", "webp", "bmp", "ico",
    "mp4", "mkv", "webm", "ogv", "mov", "avi", "m4v", "wmv", "flv",
    "mp3", "wav", "m4a", "aac", "oga", "ogg", "flac", "pdf", "csv", "xlsx", "xls", "zip", "tar", "gz"}

  /** The table of `get_mime_type`, on a lower-cased extension. */
  function MimeFor(ext: string): string
  {
    match ext
    case "html" | "htm" => "text/html"
    case "css" => "text/css"
    case "js" => "application/javascript"
    case "xml" => "application/xml"
    case "txt" | "md" | "rst" | "log" => "text/plain"
    case "json" => "application/json"
    case "geojson" => "application/geo+json"
    case "ipynb" => "application/x-ipynb+json"
    case "py" => "text/x-python"
    case "rs" => "text/x-rust"
    case "go" => "text/x-go"
    case "php" => "text/x-php"
    case "rb" => "text/x-ruby"
    case "swift" => "text/x-swift"
    case "kt" => "text/x-kotlin"
    case "yml" | "yaml" => "text/x-yaml"
    case "toml" => "text/x-toml"
    case "ini" | "cfg" | "conf" => "text/plain"
    case "jpg" | "jpeg" => "image/jpeg"
    case "png" => "image/png"
    case "gif" => "image/gif"
    case "svg" => "image/svg+xml"
    case "webp" => "image/webp"
    case "bmp" => "image/bmp"
    case "ico" => "image/x-icon"
    case "mp4" => "video/mp4"
    case "mkv" | "webm" => "video/webm"
    case "ogv" => "video/ogg"
    case "mov" => "video/quicktime"
    case "avi" => "video/x-msvideo"
    case "m4v" => "video/mp4"
    case "wmv" => "video/x-ms-wmv"
    case "flv" => "video/x-flv"
    case "mp3" => "audio/mpeg"
    case "wav" => "audio/wav"
    case "m4a" => "audio/mp4"
    case "aac" => "audio/aac"
    case "oga" => "audio/ogg"
    case "ogg" => "audio/ogg"
    case "flac" => "audio/flac"
    case "pdf" => "application/pdf"
    case "csv" => "text/csv"
    case "xlsx" => "application/vnd.openxmlformats-officedocument.spreadsheetml.sheet"
    case "xls" => "application/vnd.ms-excel"
    case "zip" => "application/zip"
    case "tar" => "application/x-tar"
    case "gz" => "application/gzip"
    case _ => OctetStream
  }

  /** The table of `should_display_inline`, on a lower-cased extension. */
  function InlineFor(ext: string): bool
  {
    match ext
    case "jpg" | "jpeg" | "png" | "gif" | "svg" | "webp" | "bmp" | "ico" => true
    case "mp4" | "webm" | "ogv" | "mov" | "avi" | "mkv" | "m4v" | "wmv" | "flv" => true
    case "mp3" | "wav" | "m4a" | "aac" | "oga" | "ogg" | "flac" => true
    case "txt" | "md" | "rst" | "log" | "json" | "geojson" | "xml" | "html" | "htm" | "css" | "js" | "ipynb" => true
    case "py" | "rs" | "c" | "cpp" | "h" | "java" | "go" | "php" | "rb" | "swift" | "kt" => true
    case "yml" | "yaml" | "toml" | "ini" | "cfg" | "conf" => true
    case "csv" | "xlsx" | "xls" => true
    case "pdf" => true
    case _ => false
  }

  /** The lower-cased extension both tables look at: empty when the path has none. */
  function LowerExtension(p: FS.Path): string
  {
    Lower(FS.Extension(p).GetOr(""))
  }

  /** `get_mime_type`: an extension outside the table, or none at all, is served as
      `application/octet-stream`. */
  function MimeType(p: FS.Path): (m: string)
    ensures LowerExtension(p) !in KnownExts ==> m == OctetStream
    ensures FS.Extension(p).None? ==> m == OctetStream
  {
    MimeFor(LowerExtension(p))
  }

  /** `should_display_inline`: a path without an extension is downloaded. */
  function ShouldDisplayInline(p: FS.Path): (b: bool)
    ensures FS.Extension(p).None? ==> !b
  {
    InlineFor(LowerExtension(p))
  }

  /** Images, video and audio are all shown inline. */
  lemma MediaInline(e: string)
    requires e in ImageExts + VideoExts + AudioExts
    ensures InlineFor(e)
  {
  }

  /** Image extensions are served with an `image/` type. */
  lemma ImageMime(e: string)
    requires e in ImageExts
    ensures StartsWith(MimeFor(e), "image/")
  {
  }

  /** Video extensions are served with a `video/` type. */
  lemma VideoMime(e: string)
    requires e in VideoExts
    ensures StartsWith(MimeFor(e), "video/")
  {
  }

  /** Audio extensions are served with an `audio/` type. */
  lemma AudioMime(e: string)
    requires e in AudioExts
    ensures StartsWith(MimeFor(e), "audio/")
  {
  }

  /** The two tables disagree: C, C++, header and Java files are shown inline although
      they are served as `application/octet-stream`. */
  lemma InlineWithoutType()
    ensures forall e | e in {"c", "cpp", "h", "java"} :: InlineFor(e) && MimeFor(e) == OctetStream
  {
  }

  /** Archives have a type of their own but are downloaded. */
  lemma TypedButDownloaded()
    ensures forall e | e in ArchiveExts :: !InlineFor(e) && MimeFor(e) != OctetStream
  {
  }

  /** Both tables depend only on the lower-cased extension, so the case of the
      extension does not matter. */
  lemma ExtensionDecides(p: FS.Path, q: FS.Path)
    requires LowerExtension(p) == LowerExtension(q)
    ensures MimeType(p) == MimeType(q) && ShouldDisplayInline(p) == ShouldDisplayInline(q)
  {
  }
}
