/**
 * The two regular expressions of the engine that work on URLs: the site
 * base taken from the page address in the constructor (source/ijwt.ts:56-57)
 * and `url_qualifier` (source/ijwt.ts:201-204), which re-roots a relative
 * path at the site base.
 */
module Url {
  import opened Wrappers
  import opened Scanner

  // ---------------------------------------------------------------------
  // url_qualifier: `url.match(/(\w.*|\.)+$/)`, then site base + match[0]
  // ---------------------------------------------------------------------

  /** The class `\w`. */
  predicate IsWordChar(c: char)
  {
    ('a' <= c <= 'z') || ('A' <= c <= 'Z') || ('0' <= c <= '9') || c == '_'
  }

  /** One repetition of the group: `\w.*` (as far as the line goes) or a single `.`. */
  predicate Piece(u: string)
  {
    u == "." || (|u| >= 1 && IsWordChar(u[0]) && LineFree(u[1..]))
  }

  /** `t` splits into one or more pieces: the language of `(\w.*|\.)+`. */
  predicate InPlus(t: string)
    decreases |t|
  {
    exists i :: 1 <= i <= |t| && Piece(t[..i]) && (i == |t| || InPlus(t[i..]))
  }

  /** Leading dots, then either nothing or a word character. */
  predicate DotsThenWord(t: string)
  {
    t == [] || IsWordChar(t[0]) || (t[0] == '.' && DotsThenWord(t[1..]))
  }

  /** The same language, stated by its shape. */
  predicate QualifierShape(t: string)
  {
    |t| > 0 && LineFree(t) && DotsThenWord(t)
  }

  lemma {:induction false} ShapeToPlus(t: string)
    requires QualifierShape(t)
    ensures InPlus(t)
    decreases |t|
  {
    if IsWordChar(t[0]) {
      assert t[..|t|] == t;
      assert Piece(t[..|t|]);
    } else {
      assert t[..1] == ".";
      if |t| > 1 {
        assert LineFree(t[1..]);
        ShapeToPlus(t[1..]);
      } else {
        assert t[..|t|] == t;
      }
      assert Piece(t[..1]);
    }
  }

  lemma {:induction false} PlusToShape(t: string)
    requires InPlus(t)
    ensures QualifierShape(t)
    decreases |t|
  {
    var i :| 1 <= i <= |t| && Piece(t[..i]) && (i == |t| || InPlus(t[i..]));
    var u := t[..i];
    if i < |t| {
      PlusToShape(t[i..]);
    }
    assert LineFree(t) by {
      forall k | 0 <= k < |t|
        ensures !IsLineTerminator(t[k])
      {
        if k < i {
          if u != "." && k > 0 {
            assert t[k] == u[1..][k - 1];
          }
        } else {
          assert t[k] == t[i..][k - i];
        }
      }
    }
    if t[0] == '.' && !IsWordChar(t[0]) {
      assert u == ".";
      assert t[1..] == t[i..];
    }
  }

  /** The shape is exactly the language of the expression. */
  lemma QualifierShapeIsRegex(t: string)
    ensures InPlus(t) <==> QualifierShape(t)
  {
    if InPlus(t) {
      PlusToShape(t);
    }
    if QualifierShape(t) {
      ShapeToPlus(t);
    }
  }

  /** The leftmost position from `p` on where the expression matches up to the end. */
  function QualifierStart(s: string, p: nat): (r: Option<nat>)
    requires p <= |s|
    ensures r.Some? ==> p <= r.value < |s| && QualifierShape(s[r.value..])
    ensures r.Some? ==> forall q :: p <= q < r.value ==> !QualifierShape(s[q..])
    ensures r.None? ==> forall q :: p <= q <= |s| ==> !QualifierShape(s[q..])
    decreases |s| - p
  {
    if p == |s| then None
    else if QualifierShape(s[p..]) then Some(p)
    else QualifierStart(s, p + 1)
  }

  /**
   * `url_qualifier`: the site base followed by the leftmost suffix of `url`
   * matched by `(\w.*|\.)+$`; `None` where `match` yields `null` and the
   * source throws on indexing it.
   */
  function UrlQualifier(siteBase: string, url: string): (r: Option<string>)
    ensures r.Some? <==> exists p :: 0 <= p <= |url| && InPlus(url[p..])
    ensures r.Some? ==> exists p :: 0 <= p <= |url| && r.value == siteBase + url[p..] && InPlus(url[p..]) &&
                                    (forall q :: 0 <= q < p ==> !InPlus(url[q..]))
  {
    match QualifierStart(url, 0)
    case None =>
      assert forall p :: 0 <= p <= |url| ==> !InPlus(url[p..]) by {
        forall p | 0 <= p <= |url| ensures !InPlus(url[p..]) {
          QualifierShapeIsRegex(url[p..]);
        }
      }
      None
    case Some(p) =>
      assert forall q :: 0 <= q <= p ==> (InPlus(url[q..]) <==> QualifierShape(url[q..])) by {
        forall q | 0 <= q <= p ensures InPlus(url[q..]) <==> QualifierShape(url[q..]) {
          QualifierShapeIsRegex(url[q..]);
        }
      }
      Some(siteBase + url[p..])
  }

  /** A run of dots and slashes ending in a slash is never matched from inside. */
  lemma {:induction false} NoMatchInPrefix(s: string, q: nat, n: nat)
    requires q < n <= |s|
    requires forall k :: 0 <= k < n ==> s[k] == '.' || s[k] == '/'
    requires s[n - 1] == '/'
    ensures !QualifierShape(s[q..])
    decreases n - q
  {
    if s[q] == '.' {
      assert s[q..][1..] == s[q + 1..];
      NoMatchInPrefix(s, q + 1, n);
    }
  }

  /**
   * Any run of `./`, `../` and `/` in front of a path that starts with a word
   * character is dropped, and the path is appended to the site base.
   */
  lemma Reroot(siteBase: string, pre: string, x: string)
    requires forall k :: 0 <= k < |pre| ==> pre[k] == '.' || pre[k] == '/'
    requires pre == [] || pre[|pre| - 1] == '/'
    requires |x| > 0 && IsWordChar(x[0]) && LineFree(x)
    ensures UrlQualifier(siteBase, pre + x) == Some(siteBase + x)
  {
    var s := pre + x;
    assert s[|pre|..] == x;
    assert QualifierShape(s[|pre|..]);
    forall q | 0 <= q < |pre|
      ensures !QualifierShape(s[q..])
    {
      NoMatchInPrefix(s, q, |pre|);
    }
    var r := QualifierStart(s, 0);
    if r.None? {
      assert false;
    }
    if r.value < |pre| {
      assert false;
    }
    if r.value > |pre| {
      assert false;
    }
  }

  const GlobalCss: string := "static/css/global.css"

  lemma GlobalCssShape()
    ensures |GlobalCss| > 0 && IsWordChar(GlobalCss[0]) && LineFree(GlobalCss)
  {
  }

  /** The six spellings of one stylesheet path in the test suite. */
  const TestPrefixes: seq<string> := ["../", "../../", "/../../", "./../", "./", ""]

  /** All six spellings re-root to the same URL: the site base and the path. */
  lemma RerootAllSpellings(siteBase: string, p: string)
    requires p in TestPrefixes
    ensures UrlQualifier(siteBase, p + GlobalCss) == Some(siteBase + GlobalCss)
  {
    GlobalCssShape();
    Reroot(siteBase, p, GlobalCss);
  }

  /** A URL made only of dots and slashes, ending in a slash, makes the source throw. */
  lemma QualifierThrows(siteBase: string, url: string)
    requires |url| > 0 && url[|url| - 1] == '/'
    requires forall k :: 0 <= k < |url| ==> url[k] == '.' || url[k] == '/'
    ensures UrlQualifier(siteBase, url) == None
  {
    forall q | 0 <= q < |url|
      ensures !QualifierShape(url[q..])
    {
      NoMatchInPrefix(url, q, |url|);
    }
    assert !QualifierShape(url[|url|..]);
  }

  // ---------------------------------------------------------------------
  // site_base: `href.match(/https?:\/\/.*?(?=\/)/gm)`, first match + site_path
  // ---------------------------------------------------------------------

  /** Where `https?://` ends when it matches at `p`. */
  function SchemeEnd(s: string, p: nat): (r: Option<nat>)
    requires p <= |s|
    ensures r.Some? ==> p < r.value <= |s|
  {
    if p + 8 <= |s| && s[p..p + 8] == "https://" then Some(p + 8)
    else if p + 7 <= |s| && s[p..p + 7] == "http://" then Some(p + 7)
    else None
  }

  /** Where the lazy `.*?` followed by the look-ahead `(?=\/)` stops: the first `/` on the line. */
  function SlashAhead(s: string, a: nat): (r: Option<nat>)
    requires a <= |s|
    ensures r.Some? ==> a <= r.value < LineEnd(s, a) && s[r.value] == '/'
    ensures r.Some? ==> forall k :: a <= k < r.value ==> s[k] != '/'
    ensures r.None? ==> forall k :: a <= k < LineEnd(s, a) ==> s[k] != '/'
    decreases |s| - a
  {
    if a == |s| || IsLineTerminator(s[a]) then None
    else if s[a] == '/' then Some(a)
    else SlashAhead(s, a + 1)
  }

  /** The end of the match starting at `p`, if any. */
  function OriginMatchAt(s: string, p: nat): (r: Option<nat>)
    requires p <= |s|
    ensures r.Some? ==> p < r.value < |s|
  {
    match SchemeEnd(s, p)
    case None => None
    case Some(a) => SlashAhead(s, a)
  }

  /** The first match searching from `p`: its start and its end. */
  function FirstOriginMatch(s: string, p: nat): (r: Option<(nat, nat)>)
    requires p <= |s|
    ensures r.Some? ==> p <= r.value.0 < r.value.1 < |s| && OriginMatchAt(s, r.value.0) == Some(r.value.1)
    ensures r.Some? ==> forall q :: p <= q < r.value.0 ==> OriginMatchAt(s, q).None?
    ensures r.None? ==> forall q :: p <= q <= |s| ==> OriginMatchAt(s, q).None?
    decreases |s| - p
  {
    if p == |s| then None
    else match OriginMatchAt(s, p)
      case Some(e) => Some((p, e))
      case None => FirstOriginMatch(s, p + 1)
  }

  /** The constructor's `site_base`: the first match followed by `site_path`, or empty. */
  function SiteBase(href: string, sitePath: string): (r: string)
    ensures FirstOriginMatch(href, 0).None? ==> r == ""
    ensures FirstOriginMatch(href, 0).Some? ==>
      var m := FirstOriginMatch(href, 0).value;
      r == href[m.0..m.1] + sitePath
  {
    match FirstOriginMatch(href, 0)
    case None => ""
    case Some(m) => href[m.0..m.1] + sitePath
  }

  /**
   * For an address `http://host/...` or `https://host/...` the site base is
   * the origin followed by `site_path`.
   */
  lemma SiteBaseOfOrigin(scheme: string, host: string, rest: string, sitePath: string)
    requires scheme == "http://" || scheme == "https://"
    requires forall k :: 0 <= k < |host| ==> host[k] != '/' && !IsLineTerminator(host[k])
    ensures SiteBase(scheme + host + "/" + rest, sitePath) == scheme + host + sitePath
  {
    var href := scheme + host + "/" + rest;
    var a, slash := |scheme|, |scheme| + |host|;
    assert href[..a] == scheme;
    assert href[a..slash] == host;
    assert href[slash] == '/';
    if scheme == "http://" {
      assert href[0..7] == scheme && href[4] == ':';
    } else {
      assert href[0..8] == scheme;
    }
    assert SchemeEnd(href, 0) == Some(a);
    var r := SlashAhead(href, a);
    var e := LineEnd(href, a);
    assert slash < e by {
      assert forall k :: a <= k < slash ==> href[k] == host[k - a];
      if e <= slash {
        assert false;
      }
    }
    if r.None? || r.value < slash || r.value > slash {
      assert false;
    }
    assert OriginMatchAt(href, 0) == Some(slash);
    assert href[0..slash] == scheme + host;
  }

  /** The test suite's page address `http://localhost/`, default `site_path`. */
  lemma SiteBaseDefault()
    ensures SiteBase("http://localhost/", "/") == "http://localhost/"
  {
    SiteBaseOfOrigin("http://", "localhost", "", "/");
    assert "http://" + "localhost" + "/" + "" == "http://localhost/";
  }

  const StudentPath: string := "/D00264604/website/"

  /** The same address with `site_path` `/D00264604/website/`. */
  lemma SiteBaseWithPath()
    ensures SiteBase("http://localhost/", StudentPath) == "http://localhost" + StudentPath
  {
    SiteBaseOfOrigin("http://", "localhost", "", StudentPath);
    assert "http://" + "localhost" + "/" + "" == "http://localhost/";
    assert "http://" + "localhost" == "http://localhost";
  }
}
