/**
 * The URL and file-name helpers of the import command
 * (src/Command/DB2WP_Import_Command.php): file extension, base name,
 * protocol stripping, file-name sanitising, the "-scaled" variant of an
 * image name, and the local/remote domain test.
 */
module UrlHelpers {
  import opened Php

  // ---------------------------------------------------------------------------
  // Extension and base name

  /** get_file_extension: the text after the last '.', or "" when that dot is the first character or the tail is longer than 4. */
  function GetFileExtension(s: string): (r: string)
    ensures r != "" ==> |r| <= 4 && '.' !in r && EndsWith(s, "." + r) && |s| > |r| + 1
  {
    match LastIndexOf(s, '.')
    case None => ""
    case Some(i) =>
      if i == 0 then ""
      else
        var ext := s[i + 1..];
        assert s[|s| - |ext| - 1..] == "." + ext;
        if |ext| <= 4 then ext else ""
  }

  /** A name made of a stem, a dot and a dot-free tail has that tail as extension exactly when the stem is non-empty and the tail is at most 4 long. */
  lemma FileExtensionOf(stem: string, e: string)
    requires '.' !in e
    ensures GetFileExtension(stem + "." + e) == (if stem != "" && |e| <= 4 then e else "")
  {
    LastIndexOfSplit(stem, '.', e);
    assert (stem + "." + e)[|stem| + 1..] == e;
  }

  /** A name with several dots takes the part after the last one. */
  lemma FileExtensionOfDoubleName()
    ensures GetFileExtension("report.final.pdf") == "pdf"
  {
    assert "report.final.pdf" == "report.final" + "." + "pdf";
    FileExtensionOf("report.final", "pdf");
  }

  /** Only the last extension of a compound one is kept. */
  lemma FileExtensionOfCompound()
    ensures GetFileExtension("archive.tar.gz") == "gz"
  {
    assert "archive.tar.gz" == "archive.tar" + "." + "gz";
    FileExtensionOf("archive.tar", "gz");
  }

  /** A name that starts with its only dot has no extension. */
  lemma FileExtensionOfHidden()
    ensures GetFileExtension(".htaccess") == ""
  {
    assert ".htaccess" == "" + "." + "htaccess";
    FileExtensionOf("", "htaccess");
  }

  /** The piece of s after its last c: end(explode(c, s)). */
  function AfterLast(s: string, c: char): (r: string)
    ensures c !in r && EndsWith(s, r)
    ensures c in s ==> EndsWith(s, [c] + r)
    ensures c !in s ==> r == s
  {
    var parts := Explode(s, c);
    match LastIndexOf(s, c)
    case None => Last(parts)
    case Some(i) =>
      assert s[i..] == [c] + s[i + 1..];
      Last(parts)
  }

  /** get_basename: the text after the last '/'. */
  function GetBasename(file: string): (r: string)
    ensures '/' !in r && EndsWith(file, r)
    ensures '/' in file ==> EndsWith(file, "/" + r)
    ensures '/' !in file ==> r == file
  {
    AfterLast(file, '/')
  }

  /** The base name of dir + "/" + name is name. */
  lemma {:induction false} BasenameOf(dir: string, name: string)
    requires '/' !in name
    ensures GetBasename(dir + "/" + name) == name
  {
    var s := dir + "/" + name;
    LastIndexOfSplit(dir, '/', name);
    assert s[|dir| + 1..] == name;
  }

  // ---------------------------------------------------------------------------
  // Protocol stripping

  const Http := "http://"
  const Https := "https://"

  /**
   * remove_http: when the URL starts with "http://" (or else "https://"),
   * str_replace removes every occurrence of that prefix string, not only the leading one.
   */
  function RemoveHttp(url: string): (r: string)
    ensures !StartsWith(url, Http) && !StartsWith(url, Https) ==> r == url
    ensures |r| <= |url|
  {
    if StartsWith(url, Http) then StrReplaceShrinks(Http, url); StrReplace(Http, "", url)
    else if StartsWith(url, Https) then StrReplaceShrinks(Https, url); StrReplace(Https, "", url)
    else url
  }

  /** Deleting every occurrence of a string never lengthens the subject. */
  lemma {:induction false} StrReplaceShrinks(search: string, subject: string)
    ensures |StrReplace(search, "", subject)| <= |subject|
    decreases |subject|
  {
    if search != [] && |subject| >= |search| {
      if subject[..|search|] == search {
        StrReplaceShrinks(search, subject[|search|..]);
      } else {
        StrReplaceShrinks(search, subject[1..]);
      }
    }
  }

  /** A URL with one leading protocol and no other occurrence of it loses exactly the protocol. */
  lemma RemoveHttpOf(rest: string)
    requires forall j :: !OccursAt(rest, Http, j)
    requires forall j :: !OccursAt(rest, Https, j)
    ensures RemoveHttp(Http + rest) == rest
    ensures RemoveHttp(Https + rest) == rest
  {
    PrefixConcat(Http, rest);
    assert (Http + rest)[|Http|..] == rest;
    StrReplaceFront(Http, "", Http + rest);
    StrReplaceAbsent(Http, "", rest);
    var u := Https + rest;
    assert !StartsWith(u, Http) by {
      assert u[4] == 's' && Http[4] == ':';
    }
    PrefixConcat(Https, rest);
    assert u[|Https|..] == rest;
    StrReplaceFront(Https, "", u);
    StrReplaceAbsent(Https, "", rest);
  }

  // ---------------------------------------------------------------------------
  // File names

  /** The rest of s from its first line break ("" when there is none). */
  function FromLineBreak(s: string): (r: string)
    ensures |r| <= |s| && r == s[|s| - |r|..]
    ensures r == [] || r[0] == '\n'
    ensures '\n' !in s[..|s| - |r|]
  {
    if s == [] then []
    else if s[0] == '\n' then s
    else
      var r := FromLineBreak(s[1..]);
      assert s[..|s| - |r|] == [s[0]] + s[1..][..|s| - 1 - |r|];
      r
  }

  /**
   * preg_replace('/\?.* /', '', s): every '?' and the rest of its line are
   * removed ('.' does not match a line break).
   */
  function StripQuery(s: string): (r: string)
    ensures '?' !in r
    ensures '?' !in s ==> r == s
    ensures '\n' !in s ==> StartsWith(s, r) && (|r| < |s| ==> s[|r|] == '?')
    decreases |s|
  {
    if s == [] then []
    else if s[0] == '?' then
      var rest := FromLineBreak(s[1..]);
      assert '\n' !in s ==> rest == [];
      StripQuery(rest)
    else
      var r := StripQuery(s[1..]);
      assert s == [s[0]] + s[1..];
      [s[0]] + r
  }

  /** sanitize_file_name on a stem, with its dots and underscores protected by placeholder words. */
  function SanitizeStem(stem: string, sanitizeFileName: string -> string): string {
    var protected := StrReplace("_", "willbetrimmed", StrReplace(".", "willbedots", stem));
    StrReplace("willbedots", ".", StrReplace("willbetrimmed", "_", sanitizeFileName(protected)))
  }

  /**
   * sanitize_filename: after the query is stripped, a name without a dot is
   * returned as is; otherwise the part before the last dot goes through
   * sanitize_file_name (dots and underscores protected by placeholder words)
   * and the original extension is put back verbatim.
   */
  function SanitizeFilename(filename: string, sanitizeFileName: string -> string): (r: string)
    ensures '.' !in StripQuery(filename) ==> r == StripQuery(filename)
    ensures '.' in StripQuery(filename) ==> EndsWith(r, "." + AfterLast(StripQuery(filename), '.'))
  {
    var f := StripQuery(filename);
    var parts := Explode(f, '.');
    if |parts| > 1 then
      var ext := Last(parts);
      assert ext == AfterLast(f, '.');
      var sanitized := SanitizeStem(f[..|f| - (|ext| + 1)], sanitizeFileName);
      var dotExt := "." + ext;
      SuffixConcat(sanitized, dotExt);
      sanitized + dotExt
    else
      f
  }

  /** A query-free file name keeps its extension through sanitising. */
  lemma SanitizeKeepsExtension(stem: string, ext: string, sanitizeFileName: string -> string)
    requires '.' !in ext
    requires '?' !in stem && '?' !in ext
    ensures EndsWith(SanitizeFilename(stem + "." + ext, sanitizeFileName), "." + ext)
  {
    var f := stem + "." + ext;
    assert '?' !in f;
    assert f[|stem|] == '.';
    LastIndexOfSplit(stem, '.', ext);
    assert f[|stem| + 1..] == ext;
  }

  /** A query-free name without a dot is returned untouched. */
  lemma SanitizeWithoutDot(name: string, sanitizeFileName: string -> string)
    requires '.' !in name && '?' !in name
    ensures SanitizeFilename(name, sanitizeFileName) == name
  {
  }

  /**
   * The "-scaled" file name WordPress gives large images (get_media_from_gallery):
   * every "." + ext becomes "-scaled." + ext when the extension is truthy.
   */
  function ScaledName(imageName: string): (r: string)
    ensures EmptyString(GetFileExtension(imageName)) ==> r == imageName
    ensures !EmptyString(GetFileExtension(imageName)) ==> EndsWith(r, "-scaled." + GetFileExtension(imageName))
  {
    var ext := GetFileExtension(imageName);
    if !EmptyString(ext) then
      var search := "." + ext;
      var stem := imageName[..|imageName| - |search|];
      assert imageName == stem + search;
      StrReplaceTrailing(search, "-scaled" + search, stem);
      assert "-scaled." + ext == "-scaled" + search;
      SuffixConcat(StrReplace(search, "-scaled" + search, stem), "-scaled" + search);
      StrReplace(search, "-scaled." + ext, imageName)
    else
      imageName
  }

  /** A text without the first character of p has no occurrence of p. */
  lemma NoOccurrenceWithoutFirst(s: string, p: string)
    requires p != [] && p[0] !in s
    ensures forall j :: !OccursAt(s, p, j)
  {
    forall j ensures !OccursAt(s, p, j) {
      if 0 <= j && j + |p| <= |s| {
        assert s[j..j + |p|][0] == s[j];
      }
    }
  }

  /** A name with a single dot and a truthy extension of at most 4 characters gets "-scaled" before the dot. */
  lemma ScaledNameOf(stem: string, ext: string)
    requires stem != "" && '.' !in stem && '.' !in ext
    requires 0 < |ext| <= 4 && ext != "0"
    ensures ScaledName(stem + "." + ext) == stem + "-scaled." + ext
  {
    FileExtensionOf(stem, ext);
    var search := "." + ext;
    var replace := "-scaled." + ext;
    assert stem + "." + ext == stem + search;
    StrReplaceTrailing(search, replace, stem);
    NoOccurrenceWithoutFirst(stem, search);
    StrReplaceAbsent(search, replace, stem);
    assert stem + "-scaled." + ext == stem + replace;
  }

  // ---------------------------------------------------------------------------
  // Local or remote

  /** The host of a URL with ":" + port appended when a port is present (port 0 = absent). */
  function HostWithPort(host: string, port: int): (r: string)
    ensures port == 0 ==> r == host
    ensures port != 0 ==> StartsWith(r, host + ":") && EndsWith(r, IntToString(port))
                          && |r| == |host| + 1 + |IntToString(port)|
  {
    if port != 0 then
      PrefixConcat(host + ":", IntToString(port));
      SuffixConcat(host + ":", IntToString(port));
      host + ":" + IntToString(port)
    else host
  }

  /** The same host on two different ports gives two different domains. */
  lemma HostWithPortInjective(host: string, p1: int, p2: int)
    requires p1 != 0 && p2 != 0 && HostWithPort(host, p1) == HostWithPort(host, p2)
    ensures p1 == p2
  {
    var d := HostWithPort(host, p1);
    assert IntToString(p1) == d[|host| + 1..] == IntToString(p2);
    IntToStringInjective(p1, p2);
  }

  /**
   * is_wp_domain_match with the home domain as the one whitelisted domain.
   * host and port are what parse_url returned ("" and 0 when absent).
   * Besides an exact match, the first occurrence of "." + home must sit at
   * the very end of the domain.
   */
  function IsWpDomainMatch(host: string, port: int, home: string): (r: bool)
    ensures r ==> HostWithPort(host, port) == home || EndsWith(HostWithPort(host, port), "." + home)
    ensures HostWithPort(host, port) == home ==> r
    ensures var d := HostWithPort(host, port);
            r ==> d == home || forall j :: 0 <= j < |d| - |"." + home| ==> !OccursAt(d, "." + home, j)
  {
    var domain := HostWithPort(host, port);
    if domain == home then true
    else
      var w := "." + home;
      match FindFrom(domain, w, 0)
      case None => false
      case Some(p) =>
        if p == |domain| - |w| then
          assert domain[|domain| - |w|..] == w;
          true
        else false
  }

  /** A domain (host and port) ending in "." + home, with no earlier occurrence of it, is local. */
  lemma SubdomainIsLocal(host: string, port: int, home: string)
    requires EndsWith(HostWithPort(host, port), "." + home)
    requires var d := HostWithPort(host, port);
             forall j :: 0 <= j < |d| - |"." + home| ==> !OccursAt(d, "." + home, j)
    ensures IsWpDomainMatch(host, port, home)
  {
    var d := HostWithPort(host, port);
    var w := "." + home;
    assert d[|d| - |w|..|d| - |w| + |w|] == w;
    FindFromFirst(d, w, 0, |d| - |w|);
  }

  /**
   * is_wp_domain_match exactly: the domain is home, or it ends with
   * "." + home and that is the first occurrence of "." + home in it.
   */
  lemma IsWpDomainMatchIff(host: string, port: int, home: string)
    ensures var d := HostWithPort(host, port);
            var w := "." + home;
            IsWpDomainMatch(host, port, home)
            <==> d == home || (EndsWith(d, w) && forall j :: 0 <= j < |d| - |w| ==> !OccursAt(d, w, j))
  {
    var d := HostWithPort(host, port);
    var w := "." + home;
    if d != home && EndsWith(d, w) && forall j :: 0 <= j < |d| - |w| ==> !OccursAt(d, w, j) {
      SubdomainIsLocal(host, port, home);
    }
  }

  /** A domain that is neither home nor ends in "." + home is remote. */
  lemma ForeignIsRemote(host: string, port: int, home: string)
    requires HostWithPort(host, port) != home && !EndsWith(HostWithPort(host, port), "." + home)
    ensures !IsWpDomainMatch(host, port, home)
  {
  }

  /** A subdomain one label deep (a label without dots) is local. */
  lemma LabelSubdomainIsLocal(sub: string, home: string)
    requires '.' !in sub
    ensures IsWpDomainMatch(sub + "." + home, 0, home)
  {
    var d := sub + "." + home;
    var w := "." + home;
    forall j | 0 <= j < |sub| ensures !OccursAt(d, w, j) {
      assert d[j] == sub[j];
      if j + |w| <= |d| {
        assert d[j..j + |w|][0] == d[j];
      }
    }
    SuffixConcat(sub, w);
    assert d == sub + w;
    SubdomainIsLocal(d, 0, home);
  }

  /** The home domain and a direct subdomain of it are local. */
  lemma SubdomainExample()
    ensures IsWpDomainMatch("example.com", 0, "example.com")
    ensures IsWpDomainMatch("cdn.example.com", 0, "example.com")
  {
    LabelSubdomainIsLocal("cdn", "example.com");
    assert "cdn" + "." + "example.com" == "cdn.example.com";
  }

  /** A domain that merely ends with the home name, without the dot, is remote. */
  lemma LookalikeExample()
    ensures !IsWpDomainMatch("notexample.com", 0, "example.com")
  {
    assert "notexample.com"[2] != ".example.com"[0];
    ForeignIsRemote("notexample.com", 0, "example.com");
  }

  /** A home domain without a port does not match its own host on any port. */
  lemma OtherPortIsRemote(home: string, port: int)
    requires port != 0 && ':' !in home
    ensures !IsWpDomainMatch(home, port, home)
  {
    var n := IntToString(port);
    var d := HostWithPort(home, port);
    var w := "." + home;
    assert d == home + ":" + n;
    if EndsWith(d, w) {
      // "." + home would start at index |n| of d, and the ':' at index |home|
      // is then either that '.' or a character of home
      EndsWithAt(d, w, 0);
      if |n| < |home| {
        EndsWithAt(d, w, |home| - |n|);
      }
      assert false;
    }
    ForeignIsRemote(home, port, home);
  }

  /** The home host on another port is remote. */
  lemma OtherPortExample()
    ensures !IsWpDomainMatch("example.com", 8080, "example.com")
  {
    OtherPortIsRemote("example.com", 8080);
  }

  /** A domain other than home in which "." + home occurs before its end is remote. */
  lemma EarlierHomeIsRemote(host: string, port: int, home: string, j: int)
    requires var d := HostWithPort(host, port);
             d != home && 0 <= j < |d| - |"." + home| && OccursAt(d, "." + home, j)
    ensures !IsWpDomainMatch(host, port, home)
  {
  }

  lemma OccursBetween(a: string, w: string, b: string)
    ensures OccursAt(a + w + b, w, |a|)
  {
    assert (a + w + b)[|a|..|a| + |w|] == w;
  }

  /**
   * The first-occurrence test rejects a domain in which "." + home occurs
   * twice, although it ends with "." + home.
   */
  lemma RepeatedHomeIsRemote()
    ensures EndsWith("x.example.com.example.com", ".example.com")
    ensures !IsWpDomainMatch("x.example.com.example.com", 0, "example.com")
  {
    var w := ".example.com";
    RepeatedDomainSpelled();
    SuffixConcat("x" + w, w);
    OccursBetween("x", w, w);
    EarlierHomeIsRemote("x" + w + w, 0, "example.com", 1);
  }

  lemma RepeatedDomainSpelled()
    ensures "x" + ".example.com" + ".example.com" == "x.example.com.example.com"
  {
    assert "x" + ".example.com" == "x.example.com";
  }
}
