/**
 * cleanUrl and getFilePath, shared word for word by utils/BasicURLHandler.java and
 * UrlHandler.java.  Everything is exact string code except the java.net.URI parse,
 * which is a parameter: any partial function from text to URI parts.
 */
module UrlHandler {
  import opened Strings

  /** The three URI accessors cleanUrl reads; None is Java's null. */
  datatype UriParts = UriParts(scheme: Option<string>, host: Option<string>, path: Option<string>)

  /** new URI(text): None when the constructor throws URISyntaxException. */
  type UriParser = string -> Option<UriParts>

  /** The exception cleanUrl lets escape: indexing [0] of an empty split result. */
  datatype Error = IndexOutOfBounds

  datatype Result<+T> = Ok(value: T) | Err(error: Error)

  /**
   * Java's string concatenation renders null as "null", so an absent part cannot be told
   * apart from a part that is the text "null".
   */
  function Render(part: Option<string>): (r: string)
    ensures part.Some? ==> r == part.value
    ensures r == "null" <==> part == None || part == Some("null")
  {
    if part.Some? then part.value else "null"
  }

  /**
   * url.split("#")[0].split("\\?")[0]: the text handed to the URI parser.  It is the
   * longest prefix of url holding neither '#' nor '?', unless one of the two splits
   * yields an empty array.
   */
  function TextToParse(url: string): (r: Option<string>)
    ensures r.None? <==> (url != [] && AllChar(url, '#'))
                         || (Before(url, '#') != [] && AllChar(Before(url, '#'), '?'))
    ensures r.Some? ==> '#' !in r.value && '?' !in r.value
    ensures r.Some? ==> r.value <= url && (r.value == url || url[|r.value|] in "#?")
  {
    match SplitFirst(url, '#')
    case None => None
    case Some(head) => SplitFirst(head, '?')
  }

  /**
   * cleanUrl: scheme + "://" + host + path of the parsed text, "" when the parser
   * rejects it, and an escaping exception when a split comes back empty.
   */
  function CleanUrl(parse: UriParser, url: string): (r: Result<string>)
    ensures r.Err? <==> TextToParse(url).None?
    ensures r.Ok? ==> (r.value == "" <==> parse(TextToParse(url).value).None?)
  {
    match TextToParse(url)
    case None => Err(IndexOutOfBounds)
    case Some(text) =>
      match parse(text)
      case None => Ok("")
      case Some(uri) => Ok(Render(uri.scheme) + "://" + Render(uri.host) + Render(uri.path))
  }

  /** Cleaning the text that was handed to the parser gives the same answer as cleaning the URL. */
  lemma CleanUrlOfParsedText(parse: UriParser, url: string, text: string)
    requires TextToParse(url) == Some(text)
    ensures TextToParse(text) == Some(text)
    ensures CleanUrl(parse, text) == CleanUrl(parse, url)
  {
    if text != [] {
      assert text[0] != '#' && text[0] != '?';
    }
    assert Before(text, '#') == text;
    assert Before(text, '?') == text;
  }

  /** A URL followed by a query or a fragment cleans exactly as the URL alone, and does not throw. */
  lemma QueryAndFragmentIgnored(parse: UriParser, url: string, tail: string)
    requires url != [] && '#' !in url && '?' !in url
    requires tail != [] && tail[0] in "#?"
    ensures CleanUrl(parse, url + tail).Ok?
    ensures CleanUrl(parse, url + tail) == CleanUrl(parse, url)
  {
    var s := url + tail;
    assert s[0] == url[0];
    BeforeAppend(url, tail, '#');
    var head := Before(s, '#');
    assert head == url + Before(tail, '#');
    BeforeAppend(url, Before(tail, '#'), '?');
    if tail[0] == '?' {
      assert Before(tail, '#') == [tail[0]] + Before(tail[1..], '#');
    }
    assert Before(head, '?') == url;
    assert head[0] == url[0];
    assert TextToParse(url + tail) == Some(url);
    CleanUrlOfParsedText(parse, url + tail, url);
  }

  /**
   * A text the parser reads as a relative reference (no scheme, no host) is not turned
   * into "": the missing parts are spelled "null" by the string concatenation.
   */
  lemma RelativeTextKeepsNulls(parse: UriParser, url: string, path: string)
    requires url != [] && '#' !in url && '?' !in url
    requires parse(url) == Some(UriParts(None, None, Some(path)))
    ensures CleanUrl(parse, url) == Ok("null://null" + path)
  {
    PlainTextParsedWhole(url);
    assert "null" + "://" + "null" + path == "null://null" + path;
  }

  /** Before distributes over a prefix that lacks the delimiter. */
  lemma {:induction false} BeforeAppend(a: string, b: string, c: char)
    requires c !in a
    ensures Before(a + b, c) == a + Before(b, c)
  {
    if a == [] {
      assert a + b == b;
    } else {
      assert (a + b)[1..] == a[1..] + b;
      BeforeAppend(a[1..], b, c);
      assert [a[0]] + a[1..] == a;
    }
  }

  /** Only a URL that starts with '#' or '?' can make cleanUrl throw. */
  lemma CleanUrlThrowsOnlyOnLeadingDelimiter(parse: UriParser, url: string)
    requires CleanUrl(parse, url).Err?
    ensures url != [] && url[0] in "#?"
  {
    if url != [] && url[0] != '#' {
      assert Before(url, '#') == [url[0]] + Before(url[1..], '#');
    }
  }

  /** outputDir after `if (!outputDir.endsWith(File.separator)) outputDir += File.separator;` */
  function WithSeparator(dir: string, sep: char): (r: string)
    ensures EndsWith(r, [sep])
    ensures dir <= r && |r| <= |dir| + 1
    ensures r == dir <==> EndsWith(dir, [sep])
  {
    if EndsWith(dir, [sep]) then dir else dir + [sep]
  }

  /** cleanedUrl.replace("https://", "").replace("/", File.separator) */
  function MapToPath(cleaned: string, sep: char): (r: string)
    ensures |r| <= |cleaned|
    ensures sep != '/' ==> '/' !in r
  {
    var stripped := Replace(cleaned, "https://", "");
    ReplaceNoLonger(cleaned, "https://", "");
    ReplaceCharPointwise(stripped, '/', sep);
    Replace(stripped, "/", [sep])
  }

  /**
   * getFilePath: "" for a URL that cleans to "", otherwise the output root joined by
   * exactly one separator to the mapped URL, with index.html added when the cleaned
   * URL names a directory.
   */
  function GetFilePath(parse: UriParser, sep: char, url: string, outputDir: string): (r: Result<string>)
    ensures r.Err? <==> CleanUrl(parse, url).Err?
    ensures r.Ok? ==> (r.value == "" <==> CleanUrl(parse, url).value == "")
    ensures r.Ok? && r.value != "" ==>
              WithSeparator(outputDir, sep) <= r.value
              && (EndsWith(CleanUrl(parse, url).value, "/") ==> EndsWith(r.value, "index.html"))
  {
    match CleanUrl(parse, url)
    case Err(e) => Err(e)
    case Ok(cleaned) =>
      if cleaned == "" then Ok("")
      else
        var root := WithSeparator(outputDir, sep);
        if EndsWith(cleaned, "/") then Ok(root + MapToPath(cleaned, sep) + "index.html")
        else Ok(root + MapToPath(cleaned, sep))
  }

  /** The output root is a prefix of every non-empty file path, followed by exactly one separator. */
  lemma FilePathJoinsRootOnce(parse: UriParser, sep: char, url: string, outputDir: string, path: string)
    requires GetFilePath(parse, sep, url, outputDir) == Ok(path) && path != ""
    ensures outputDir <= path
    ensures EndsWith(outputDir, [sep]) ==> path[..|outputDir|] == outputDir && WithSeparator(outputDir, sep) == outputDir
    ensures !EndsWith(outputDir, [sep]) ==> path[|outputDir|] == sep
  {
  }

  /** A directory-style URL maps to a file named index.html. */
  lemma DirectoryMapsToIndex(parse: UriParser, sep: char, url: string, outputDir: string, cleaned: string)
    requires CleanUrl(parse, url) == Ok(cleaned) && EndsWith(cleaned, "/")
    ensures GetFilePath(parse, sep, url, outputDir).Ok?
    ensures EndsWith(GetFilePath(parse, sep, url, outputDir).value, "index.html")
  {
  }

  /** An http:// scheme is not stripped: only https:// is deleted. */
  lemma HttpSchemeKept(rest: string)
    ensures Replace("http://" + rest, "https://", "") == "http://" + Replace(rest, "https://", "")
  {
    var s := "http://" + rest;
    var t := "https://";
    forall i | 0 <= i < 7 && i < |s| ensures !StartsWith(s[i..], t) {
      if i == 0 {
        assert s[i..][4] == ':' != t[4];
      } else {
        assert s[i..][0] != 'h';
      }
    }
    ReplaceSkipsPrefix("http://", rest, t, "");
  }

  /** No two neighbouring characters of s are both '/'. */
  predicate NoDoubleSlash(s: string) {
    forall i :: 0 <= i < |s| - 1 ==> !(s[i] == '/' && s[i + 1] == '/')
  }

  /** "https://" holds a double slash, so it cannot occur in text that has none. */
  lemma SchemeNeedsDoubleSlash(s: string)
    requires NoDoubleSlash(s)
    ensures NoMatchBefore(s, "https://", |s|)
  {
    forall i | 0 <= i < |s| ensures !StartsWith(s[i..], "https://") {
      if i + 7 < |s| {
        assert s[i..][6] == s[i + 6] && s[i..][7] == s[i + 7];
        assert s[i + 6] != '/' || s[i + 7] != '/';
      }
    }
  }

  /** Segments without slashes, joined by single slashes, hold no double slash. */
  lemma SegmentsHaveNoDoubleSlash(a: string, b: string)
    requires '/' !in a && '/' !in b && b != []
    ensures NoDoubleSlash(a + "/" + b) && NoDoubleSlash(a + "/" + b + "/")
  {
    var s := a + "/" + b + "/";
    forall i | 0 <= i < |s| - 1 ensures !(s[i] == '/' && s[i + 1] == '/') {
      if i < |a| {
        assert s[i] == a[i] && a[i] in a;
      } else if i == |a| {
        assert s[i + 1] == b[0] && b[0] in b;
      } else {
        assert s[i] == b[i - |a| - 1] && b[i - |a| - 1] in b;
      }
    }
    assert (a + "/" + b) == s[..|s| - 1];
  }

  /** On an https URL whose rest holds no double slash, the mapping deletes the scheme and swaps separators. */
  lemma HttpsSchemeDeleted(rest: string, sep: char)
    requires NoDoubleSlash(rest)
    ensures MapToPath("https://" + rest, sep) == Replace(rest, "/", [sep])
  {
    var url := "https://" + rest;
    assert url[..8] == "https://" && url[8..] == rest;
    SchemeNeedsDoubleSlash(rest);
    ReplaceAbsent(rest, "https://", "");
    assert Replace(url, "https://", "") == rest;
  }

  /** Swapping '/' for the separator in a/b touches exactly the one slash. */
  lemma SeparatorSwapped(a: string, b: string, sep: char)
    requires '/' !in a && '/' !in b
    ensures Replace(a + "/" + b, "/", [sep]) == a + [sep] + b
  {
    var s := a + "/" + b;
    var expected := a + [sep] + b;
    ReplaceCharPointwise(s, '/', sep);
    forall i | 0 <= i < |s| ensures Replace(s, "/", [sep])[i] == expected[i] {
      if i < |a| {
        assert s[i] == a[i] && expected[i] == a[i] && a[i] in a;
      } else if i > |a| {
        assert s[i] == b[i - |a| - 1] && expected[i] == b[i - |a| - 1] && b[i - |a| - 1] in b;
      }
    }
  }

  /** Swapping '/' for the separator in a/b/ touches exactly the two slashes. */
  lemma SeparatorsSwapped(a: string, b: string, sep: char)
    requires '/' !in a && '/' !in b
    ensures Replace(a + "/" + b + "/", "/", [sep]) == a + [sep] + b + [sep]
  {
    var s := a + "/" + b + "/";
    var expected := a + [sep] + b + [sep];
    ReplaceCharPointwise(s, '/', sep);
    forall i | 0 <= i < |s| ensures Replace(s, "/", [sep])[i] == expected[i] {
      if i < |a| {
        assert s[i] == a[i] && expected[i] == a[i] && a[i] in a;
      } else if |a| < i < |a| + 1 + |b| {
        assert s[i] == b[i - |a| - 1] && expected[i] == b[i - |a| - 1] && b[i - |a| - 1] in b;
      }
    }
  }

  /**
   * A URL without query or fragment that the parser splits into scheme, host and path,
   * which reassemble to it, cleans to itself.
   */
  lemma UnqueriedUrlCleansToItself(parse: UriParser, url: string, scheme: string, host: string, path: string)
    requires url == scheme + "://" + host + path
    requires '#' !in url && '?' !in url
    requires parse(url) == Some(UriParts(Some(scheme), Some(host), Some(path)))
    ensures CleanUrl(parse, url) == Ok(url)
  {
    assert url[|scheme|] == ':';
    PlainTextParsedWhole(url);
  }

  /** Text with neither '#' nor '?' that does not start empty goes to the parser unchanged. */
  lemma PlainTextParsedWhole(url: string)
    requires url != [] && '#' !in url && '?' !in url
    ensures TextToParse(url) == Some(url)
  {
    assert url[0] != '#' && url[0] != '?';
    assert Before(url, '#') == url;
    assert Before(url, '?') == url;
  }

  /** The text after "https://" carries no '#' or '?' when its pieces carry none. */
  lemma HttpsUrlUnqueried(rest: string)
    requires '#' !in rest && '?' !in rest
    ensures '#' !in "https://" + rest && '?' !in "https://" + rest
  {
    forall c | c in "#?" ensures c !in "https://" + rest {
      assert c !in "https://";
    }
  }

  // https://host/file

  /**
   * A file URL https://host/file, parsed as java.net.URI parses it, maps to host,
   * separator, file under the output root, with nothing appended.
   */
  lemma FileUrlMapped(parse: UriParser, sep: char, host: string, file: string, outputDir: string)
    requires '/' !in host && '/' !in file && file != []
    requires '#' !in host + file && '?' !in host + file
    requires parse("https://" + host + "/" + file) == Some(UriParts(Some("https"), Some(host), Some("/" + file)))
    ensures GetFilePath(parse, sep, "https://" + host + "/" + file, outputDir)
            == Ok(WithSeparator(outputDir, sep) + host + [sep] + file)
  {
    assert WithSeparator(outputDir, sep) + (host + [sep] + file) == WithSeparator(outputDir, sep) + host + [sep] + file;
    HttpsFileUrlCleansToItself(parse, host, file);
    FileUrlNotSlashTerminated(host, file);
    HttpsFileUrlMaps(host, file, sep);
  }

  lemma FileUrlNotSlashTerminated(host: string, file: string)
    requires '/' !in file && file != []
    ensures !EndsWith("https://" + host + "/" + file, "/")
  {
    var url := "https://" + host + "/" + file;
    assert url[|url| - 1] == file[|file| - 1] && file[|file| - 1] in file;
  }

  lemma HttpsFileUrlCleansToItself(parse: UriParser, host: string, file: string)
    requires '#' !in host + file && '?' !in host + file
    requires parse("https://" + host + "/" + file) == Some(UriParts(Some("https"), Some(host), Some("/" + file)))
    ensures CleanUrl(parse, "https://" + host + "/" + file) == Ok("https://" + host + "/" + file)
  {
    var rest := host + "/" + file;
    assert '#' !in rest && '?' !in rest by {
      assert '#' !in host && '#' !in file && '?' !in host && '?' !in file;
    }
    HttpsUrlUnqueried(rest);
    assert "https://" + host + "/" + file == "https" + "://" + host + ("/" + file);
    UnqueriedUrlCleansToItself(parse, "https://" + host + "/" + file, "https", host, "/" + file);
  }

  lemma HttpsFileUrlMaps(host: string, file: string, sep: char)
    requires '/' !in host && '/' !in file && file != []
    ensures MapToPath("https://" + host + "/" + file, sep) == host + [sep] + file
  {
    var rest := host + "/" + file;
    assert "https://" + host + "/" + file == "https://" + rest;
    SegmentsHaveNoDoubleSlash(host, file);
    HttpsSchemeDeleted(rest, sep);
    SeparatorSwapped(host, file, sep);
  }

  // https://host/folder/

  /**
   * A directory URL https://host/folder/, parsed as java.net.URI parses it, maps to host,
   * separator, folder, separator, index.html under the output root.
   */
  lemma DirectoryUrlMapped(parse: UriParser, sep: char, host: string, folder: string, outputDir: string)
    requires '/' !in host && '/' !in folder && folder != []
    requires '#' !in host + folder && '?' !in host + folder
    requires parse("https://" + host + "/" + folder + "/") == Some(UriParts(Some("https"), Some(host), Some("/" + folder + "/")))
    ensures GetFilePath(parse, sep, "https://" + host + "/" + folder + "/", outputDir)
            == Ok(WithSeparator(outputDir, sep) + host + [sep] + folder + [sep] + "index.html")
  {
    assert WithSeparator(outputDir, sep) + (host + [sep] + folder + [sep]) + "index.html"
        == WithSeparator(outputDir, sep) + host + [sep] + folder + [sep] + "index.html";
    var url := "https://" + host + "/" + folder + "/";
    HttpsFolderUrlCleansToItself(parse, host, folder);
    assert url[|url| - 1..] == "/";
    HttpsFolderUrlMaps(host, folder, sep);
  }

  lemma HttpsFolderUrlCleansToItself(parse: UriParser, host: string, folder: string)
    requires '#' !in host + folder && '?' !in host + folder
    requires parse("https://" + host + "/" + folder + "/") == Some(UriParts(Some("https"), Some(host), Some("/" + folder + "/")))
    ensures CleanUrl(parse, "https://" + host + "/" + folder + "/") == Ok("https://" + host + "/" + folder + "/")
  {
    var rest := host + "/" + folder + "/";
    assert '#' !in rest && '?' !in rest by {
      assert '#' !in host && '#' !in folder && '?' !in host && '?' !in folder;
    }
    HttpsUrlUnqueried(rest);
    var url := "https://" + host + "/" + folder + "/";
    assert url == "https://" + rest;
    assert "https" + "://" + host + ("/" + folder + "/") == url;
    UnqueriedUrlCleansToItself(parse, url, "https", host, "/" + folder + "/");
  }

  lemma HttpsFolderUrlMaps(host: string, folder: string, sep: char)
    requires '/' !in host && '/' !in folder && folder != []
    ensures MapToPath("https://" + host + "/" + folder + "/", sep) == host + [sep] + folder + [sep]
  {
    var rest := host + "/" + folder + "/";
    assert "https://" + host + "/" + folder + "/" == "https://" + rest;
    SegmentsHaveNoDoubleSlash(host, folder);
    HttpsSchemeDeleted(rest, sep);
    SeparatorsSwapped(host, folder, sep);
  }

  // The handler tests, on either platform separator

  /** https://example.com/page with root "output" goes to output/example.com/page. */
  lemma FileUrlScenario(parse: UriParser, sep: char, url: string, outputDir: string)
    requires sep == '/' || sep == '\\'
    requires url == "https://example.com/page" && outputDir == "output"
    requires parse(url) == Some(UriParts(Some("https"), Some("example.com"), Some("/page")))
    ensures GetFilePath(parse, sep, url, outputDir) == Ok(outputDir + [sep] + "example.com" + [sep] + "page")
  {
    var host, file := "example.com", "page";
    ExampleFileUrlParts(url, host, file);
    FileUrlMapped(parse, sep, host, file, outputDir);
    OutputRootJoined(outputDir, sep);
  }

  /**
   * The root "outputDir" gives the same file path whether or not it already ends with
   * the separator: outputDir/example.com/page.
   */
  lemma RootSeparatorScenario(parse: UriParser, sep: char, url: string, outputDir: string)
    requires sep == '/' || sep == '\\'
    requires url == "https://example.com/page"
    requires outputDir == "outputDir" || outputDir == "outputDir" + [sep]
    requires parse(url) == Some(UriParts(Some("https"), Some("example.com"), Some("/page")))
    ensures GetFilePath(parse, sep, url, outputDir) == Ok("outputDir" + [sep] + "example.com" + [sep] + "page")
  {
    var host, file := "example.com", "page";
    ExampleFileUrlParts(url, host, file);
    FileUrlMapped(parse, sep, host, file, outputDir);
    if outputDir == "outputDir" {
      OutputRootJoined(outputDir, sep);
    } else {
      assert EndsWith(outputDir, [sep]);
    }
  }

  /** https://example.com/folder/ with root "output" goes to output/example.com/folder/index.html. */
  lemma DirectoryUrlScenario(parse: UriParser, sep: char, url: string, outputDir: string)
    requires sep == '/' || sep == '\\'
    requires url == "https://example.com/folder/" && outputDir == "output"
    requires parse(url) == Some(UriParts(Some("https"), Some("example.com"), Some("/folder/")))
    ensures GetFilePath(parse, sep, url, outputDir)
            == Ok(outputDir + [sep] + "example.com" + [sep] + "folder" + [sep] + "index.html")
  {
    var host, folder := "example.com", "folder";
    ExampleFolderUrlParts(url, host, folder);
    DirectoryUrlMapped(parse, sep, host, folder, outputDir);
    OutputRootJoined(outputDir, sep);
  }

  lemma ExampleFileUrlParts(url: string, host: string, file: string)
    requires url == "https://example.com/page" && host == "example.com" && file == "page"
    ensures url == "https://" + host + "/" + file && "/" + file == "/page"
    ensures '/' !in host && '/' !in file && file != []
    ensures '#' !in host + file && '?' !in host + file
  {
  }

  lemma ExampleFolderUrlParts(url: string, host: string, folder: string)
    requires url == "https://example.com/folder/" && host == "example.com" && folder == "folder"
    ensures url == "https://" + host + "/" + folder + "/" && "/" + folder + "/" == "/folder/"
    ensures '/' !in host && '/' !in folder && folder != []
    ensures '#' !in host + folder && '?' !in host + folder
  {
  }

  /** A root that does not end with the separator receives exactly one. */
  lemma OutputRootJoined(outputDir: string, sep: char)
    requires sep == '/' || sep == '\\'
    requires outputDir == "output" || outputDir == "outputDir"
    ensures WithSeparator(outputDir, sep) == outputDir + [sep]
  {
    assert outputDir[|outputDir| - 1] in "tr";
  }
}
