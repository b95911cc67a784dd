/** The string templates: the marketplace download URL of one extension version
    (`get_package_url`, `vsix_url`) and the curl command line (`vsix_curl`). */
module Gallery {
  import opened Wrappers
  import opened Strings

  /** The `ValueError` that `publisher, package = extension.split('.')` raises
      when the name does not have exactly one dot. */
  datatype UrlError = MalformedExtension(extension: string)

  const Scheme := "https://"
  /** What follows the publisher in the host name, starting at its first dot. */
  const HostPath := "." + GalleryHost
  const GalleryHost := "gallery.vsassets.io/_apis/public/gallery/publisher/"
  const ExtensionPath := "/extension/"
  const AssetPath := "/assetbyname/Microsoft.VisualStudio.Services.VSIXPackage"

  /** A name of the form `{publisher}.{package}`: splitting on `.` gives two pieces. */
  predicate WellFormedExtension(extension: string) {
    |Split(extension, '.')| == 2
  }

  /** The asset URL for a publisher, package and version:
      `https://{publisher}.gallery.vsassets.io/_apis/public/gallery/publisher/{publisher}`
      `/extension/{package}/{version}/assetbyname/Microsoft.VisualStudio.Services.VSIXPackage`. */
  function GalleryUrl(publisher: string, package: string, version: string): string {
    Scheme + (UrlHead(publisher) + ((package + "/") + (version + AssetPath)))
  }

  /** The part of the URL that only depends on the publisher. */
  function UrlHead(publisher: string): string {
    publisher + HostPath + publisher + ExtensionPath
  }

  /** `get_package_url`: fails unless the name holds exactly one dot. */
  function PackageUrl(extension: string, version: string): (r: Result<string, UrlError>)
    ensures r.Success? <==> Count(extension, '.') == 1
    ensures r.Success? <==> WellFormedExtension(extension)
    ensures r.Failure? ==> r.error == MalformedExtension(extension)
  {
    SplitCount(extension, '.');
    var parts := Split(extension, '.');
    if |parts| == 2 then Success(GalleryUrl(parts[0], parts[1], version))
    else Failure(MalformedExtension(extension))
  }

  /** `vsix_url`, written out separately in the script with the same template. */
  function VsixUrl(extension: string, version: string): (r: Result<string, UrlError>)
    ensures r.Success? <==> WellFormedExtension(extension)
    ensures r.Failure? ==> r.error == MalformedExtension(extension)
  {
    PackageUrl(extension, version)
  }

  /** `vsix_curl`: `curl {url} -o {output_dir}/{extension}.vsix`. */
  function VsixCurl(extension: string, url: string, outputDir: string): (c: string)
    ensures |c| == |url| + |outputDir| + |extension| + 15
    ensures c[..5] == "curl " && c[5..5 + |url|] == url
    ensures c[|c| - |extension| - 5..] == extension + ".vsix"
  {
    "curl " + url + " -o " + outputDir + "/" + extension + ".vsix"
  }

  // ----- reading a URL back -----

  function StripPrefix(p: string, s: string): (r: Option<string>)
    ensures r.Some? <==> |p| <= |s| && s[..|p|] == p
    ensures r.Some? ==> s == p + r.value
  {
    if |p| <= |s| && s[..|p|] == p then
      assert s == p + s[|p|..];
      Some(s[|p|..])
    else None
  }

  function StripSuffix(p: string, s: string): (r: Option<string>)
    ensures r.Some? <==> |p| <= |s| && s[|s| - |p|..] == p
    ensures r.Some? ==> s == r.value + p
  {
    if |p| <= |s| && s[|s| - |p|..] == p then
      assert s == s[..|s| - |p|] + s[|s| - |p|..];
      Some(s[..|s| - |p|])
    else None
  }

  /** The extension name and version an asset URL names, if it has that shape:
      the publisher runs to the first dot of the host, the package to the next
      slash after `/extension/`, and the version to the fixed asset path. */
  function DecodeGalleryUrl(url: string): Option<(string, string)> {
    match StripPrefix(Scheme, url)
    case None => None
    case Some(rest) =>
      var publisher := Split(rest, '.')[0];
      match StripPrefix(UrlHead(publisher), rest)
      case None => None
      case Some(rest') =>
        var package := Split(rest', '/')[0];
        match StripPrefix(package + "/", rest')
        case None => None
        case Some(rest'') =>
          match StripSuffix(AssetPath, rest'')
          case None => None
          case Some(version) => Some((publisher + "." + package, version))
  }

  lemma {:induction false} FirstPieceBeforeSeparator(a: string, sep: char, b: string)
    requires sep !in a
    ensures Split(a + [sep] + b, sep)[0] == a
  {
    SplitConcat(a, sep, b);
    SplitNoSeparator(a, sep);
  }

  /** The asset URL can be read back when the publisher holds no dot and the
      package no slash. */
  lemma GalleryUrlRoundTrip(publisher: string, package: string, version: string)
    requires '.' !in publisher && '/' !in package
    ensures DecodeGalleryUrl(GalleryUrl(publisher, package, version)) == Some((publisher + "." + package, version))
  {
    var head := UrlHead(publisher);
    var rest'' := version + AssetPath;
    var rest' := (package + "/") + rest'';
    var rest := head + rest';
    PublisherIsFirstPiece(publisher, rest');
    PackageIsFirstPiece(package, rest'');
    assert StripPrefix(Scheme, Scheme + rest) == Some(rest);
    assert StripPrefix(head, rest) == Some(rest');
    assert StripPrefix(package + "/", rest') == Some(rest'');
    assert StripSuffix(AssetPath, rest'') == Some(version);
  }

  lemma PublisherIsFirstPiece(publisher: string, rest': string)
    requires '.' !in publisher
    ensures Split(UrlHead(publisher) + rest', '.')[0] == publisher
  {
    var tail := GalleryHost + publisher + ExtensionPath + rest';
    assert UrlHead(publisher) + rest' == publisher + ['.'] + tail;
    FirstPieceBeforeSeparator(publisher, '.', tail);
  }

  lemma PackageIsFirstPiece(package: string, rest'': string)
    requires '/' !in package
    ensures Split((package + "/") + rest'', '/')[0] == package
  {
    assert (package + "/") + rest'' == package + ['/'] + rest'';
    FirstPieceBeforeSeparator(package, '/', rest'');
  }

  /** `get_package_url` can be read back: decoding the URL of a version of a
      package whose name holds no slash gives the extension name and the version. */
  lemma PackageUrlRoundTrip(extension: string, version: string)
    requires PackageUrl(extension, version).Success?
    requires '/' !in Split(extension, '.')[1]
    ensures DecodeGalleryUrl(PackageUrl(extension, version).value) == Some((extension, version))
  {
    var parts := Split(extension, '.');
    GalleryUrlRoundTrip(parts[0], parts[1], version);
    JoinSplit(extension, '.');
    assert parts[1..] == [parts[1]];
  }

  /** `get_package_url` and `vsix_url` build the same URL and fail alike. */
  lemma PackageUrlIsVsixUrl(extension: string, version: string)
    ensures PackageUrl(extension, version) == VsixUrl(extension, version)
  {
  }

  /** Split on spaces, the curl command is the four words
      `curl`, the URL, `-o` and the target path, as long as none holds a space. */
  lemma VsixCurlWords(extension: string, url: string, outputDir: string)
    requires ' ' !in extension && ' ' !in url && ' ' !in outputDir
    ensures Split(VsixCurl(extension, url, outputDir), ' ') == ["curl", url, "-o", outputDir + "/" + extension + ".vsix"]
  {
    var path := outputDir + "/" + extension + ".vsix";
    assert ' ' !in path;
    assert VsixCurl(extension, url, outputDir) == "curl" + [' '] + (url + [' '] + ("-o" + [' '] + path));
    SplitFourWords("curl", url, "-o", path, ' ');
  }

  lemma SplitFourWords(a: string, b: string, c: string, d: string, sep: char)
    requires sep !in a && sep !in b && sep !in c && sep !in d
    ensures Split(a + [sep] + (b + [sep] + (c + [sep] + d)), sep) == [a, b, c, d]
  {
    SplitConcat(a, sep, b + [sep] + (c + [sep] + d));
    SplitConcat(b, sep, c + [sep] + d);
    SplitConcat(c, sep, d);
    SplitNoSeparator(a, sep);
    SplitNoSeparator(b, sep);
    SplitNoSeparator(c, sep);
    SplitNoSeparator(d, sep);
  }
}
