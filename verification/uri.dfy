/**
  `request_parse_uri` and `request_get_filetype`: how a request target
  becomes a file path (plus CGI arguments), and how a path picks the
  Content-Type label.
 */
module Uri {
  import opened CStrings

  /** The classification, the resolved path and the CGI argument text. */
  datatype ParsedUri = ParsedUri(isStatic: bool, filename: string, cgiargs: string)

  /** The file served for a directory target. */
  const IndexPage: string := "index.html"

  /**
    A target without "cgi" anywhere is static: the path is "." + target,
    with "index.html" appended when the target ends in '/'. Otherwise it is
    dynamic: the target is cut at its first '?', the part before becomes the
    path and the part after becomes the CGI arguments. The source reads the
    last character of the target, so the target must not be empty.
   */
  function ParseUri(uri: string): (p: ParsedUri)
    requires |uri| > 0
    ensures p.isStatic <==> !HasSubstring(uri, "cgi")
    ensures |p.filename| > 0 && p.filename[0] == '.'
    ensures p.isStatic ==> p.cgiargs == ""
    ensures p.isStatic && uri[|uri| - 1] == '/' ==> p.filename == "." + uri + IndexPage
    ensures p.isStatic && uri[|uri| - 1] != '/' ==> p.filename == "." + uri
    ensures !p.isStatic ==> '?' !in p.filename
    ensures !p.isStatic && '?' in uri ==> p.filename[1..] + "?" + p.cgiargs == uri
    ensures !p.isStatic && '?' !in uri ==> p.filename[1..] == uri && p.cgiargs == ""
  {
    ContainsIsSubstring(uri, "cgi");
    if !Contains(uri, "cgi") then
      var filename := "." + uri;
      ParsedUri(true, if uri[|uri| - 1] == '/' then filename + IndexPage else filename, "")
    else
      match IndexOf(uri, '?')
      case Some(k) =>
        assert uri == uri[..k] + "?" + uri[k + 1..];
        ParsedUri(false, "." + uri[..k], uri[k + 1..])
      case None =>
        ParsedUri(false, "." + uri, "")
  }

  /** The four Content-Type labels a static response can carry. */
  datatype ContentType = TextHtml | ImageGif | ImageJpeg | TextPlain
  {
    function Label(): string
    {
      match this
      case TextHtml => "text/html"
      case ImageGif => "image/gif"
      case ImageJpeg => "image/jpeg"
      case TextPlain => "text/plain"
    }
  }

  /**
    The type is chosen by the first of ".html", ".gif", ".jpg" that occurs
    ANYWHERE in the path (not only as its suffix); text/plain otherwise.
   */
  function FileType(filename: string): (t: ContentType)
    ensures t == TextHtml <==> HasSubstring(filename, ".html")
    ensures t == ImageGif <==> !HasSubstring(filename, ".html") && HasSubstring(filename, ".gif")
    ensures t == ImageJpeg <==>
              !HasSubstring(filename, ".html") && !HasSubstring(filename, ".gif") && HasSubstring(filename, ".jpg")
    ensures t == TextPlain <==>
              !HasSubstring(filename, ".html") && !HasSubstring(filename, ".gif") && !HasSubstring(filename, ".jpg")
  {
    ContainsIsSubstring(filename, ".html");
    ContainsIsSubstring(filename, ".gif");
    ContainsIsSubstring(filename, ".jpg");
    if Contains(filename, ".html") then TextHtml
    else if Contains(filename, ".gif") then ImageGif
    else if Contains(filename, ".jpg") then ImageJpeg
    else TextPlain
  }

  /** Matching is by substring: a path that merely contains ".html" is HTML. */
  lemma FileTypeIgnoresSuffix(stem: string, rest: string)
    ensures FileType(stem + ".html" + rest) == TextHtml
  {
    OccursInMiddle(stem, ".html", rest);
  }

  /** ".html" wins over the others wherever they occur in the path. */
  lemma FileTypeHtmlFirst(a: string, b: string, c: string)
    ensures FileType(a + ".gif" + b + ".html" + c) == TextHtml
    ensures FileType(a + ".jpg" + b + ".html" + c) == TextHtml
  {
    OccursInMiddle(a + ".gif" + b, ".html", c);
    OccursInMiddle(a + ".jpg" + b, ".html", c);
  }

  /** A directory target resolves to its index page, which is served as HTML. */
  lemma DirectoryTargetIsHtml(uri: string)
    requires |uri| > 0 && uri[|uri| - 1] == '/' && !HasSubstring(uri, "cgi")
    ensures ParseUri(uri).isStatic
    ensures FileType(ParseUri(uri).filename) == TextHtml
  {
    var f := ParseUri(uri).filename;
    assert f == "." + uri + "index" + ".html" + "";
    OccursInMiddle("." + uri + "index", ".html", "");
  }
}
