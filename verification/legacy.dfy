/**
 * The older engine of static/scripts/ijwt.js.  A template marks an include
 * with an HTML comment `<!--ijwt_NAME-->`; `search_file` finds the markers
 * as string offsets, `search_directives` finds the URL of a file by trying
 * three fixed directories, and `build_tree` fetches every marked file and
 * builds its tree in turn.  The network is the same oracle as the newer
 * engine's: a URL present in `ok` answers with `response.ok` and that text.
 */
module Legacy {
  import opened Wrappers
  import Resolver

  /** `directive_list`, the directories tried in order. */
  const DirectiveList: seq<string> := ["", "pages", "partials"]
  /** `base_page`, the page a defaulted argument stands for. */
  const BasePage: string := "index.html"
  /** The default argument of `build_tree`. */
  const ParentSentinel: string := "__ijwt_parent_file__"
  /** The default argument of `search_file`. */
  const CurrentSentinel: string := "__ijwt_current_file__"

  const MarkerOpen: string := "<!--ijwt_"
  const MarkerClose: string := "-->"

  // ---------------------------------------------------------------------
  // `file_search_exp` and `search_file`
  // ---------------------------------------------------------------------

  /** The class `[a-zA-Z0-9_.-]` of `file_search_exp`. */
  predicate IsNameChar(c: char)
  {
    'a' <= c <= 'z' || 'A' <= c <= 'Z' || '0' <= c <= '9' || c == '_' || c == '.' || c == '-'
  }

  /** A name the expression can capture: one or more characters of the class. */
  predicate ValidName(name: string)
  {
    |name| > 0 && forall k :: 0 <= k < |name| ==> IsNameChar(name[k])
  }

  /** The comment that marks an include of `name`. */
  function Marker(name: string): (m: string)
    ensures |m| == |name| + 12
  {
    MarkerOpen + name + MarkerClose
  }

  /** Where the run of class characters starting at `i` ends. */
  function RunEnd(s: string, i: nat): (e: nat)
    requires i <= |s|
    ensures i <= e <= |s|
    decreases |s| - i
  {
    if i == |s| || !IsNameChar(s[i]) then i else RunEnd(s, i + 1)
  }

  /** The run is made of class characters, and what stops it is not one. */
  lemma {:induction false} RunEndSound(s: string, i: nat)
    requires i <= |s|
    ensures forall k :: i <= k < RunEnd(s, i) ==> IsNameChar(s[k])
    ensures RunEnd(s, i) < |s| ==> !IsNameChar(s[RunEnd(s, i)])
    decreases |s| - i
  {
    if i < |s| && IsNameChar(s[i]) {
      RunEndSound(s, i + 1);
    }
  }

  /** `<!--ijwt_` starts at `i`. */
  predicate OpensAt(s: string, i: nat)
  {
    i + 9 <= |s| && s[i] == '<' && s[i + 1] == '!' && s[i + 2] == '-' && s[i + 3] == '-' &&
    s[i + 4] == 'i' && s[i + 5] == 'j' && s[i + 6] == 'w' && s[i + 7] == 't' && s[i + 8] == '_'
  }

  /**
   * The name of a match of `file_search_exp` starting at `i`, if one does.
   * The greedy class run takes the closing dashes too, and backtracking
   * gives back exactly two of them: `>` is not in the class, so the run has
   * to end in `--` with `>` right after it, and the name is what precedes.
   */
  function MarkerAt(s: string, i: nat): Option<string>
    requires i <= |s|
  {
    var j := i + |MarkerOpen|;
    if OpensAt(s, i) then
      var e := RunEnd(s, j);
      if j + 3 <= e && s[e - 2] == '-' && s[e - 1] == '-' && e < |s| && s[e] == '>' then Some(s[j..e - 2])
      else None
    else None
  }

  /** The marker of `name` written out at `i`, told character by character. */
  predicate WrittenAt(s: string, i: nat, name: string)
  {
    i + |name| + 12 <= |s| && OpensAt(s, i) && s[i + 9..i + 9 + |name|] == name &&
    s[i + |name| + 9] == '-' && s[i + |name| + 10] == '-' && s[i + |name| + 11] == '>'
  }

  lemma WrittenAtMarker(s: string, i: nat, name: string)
    requires i + |name| + 12 <= |s|
    ensures WrittenAt(s, i, name) <==> s[i..i + |name| + 12] == Marker(name)
  {
    var m, n := Marker(name), |name| + 12;
    var w := s[i..i + n];
    assert m[..9] == MarkerOpen && m[9..9 + |name|] == name && m[|name| + 9..] == MarkerClose;
    if WrittenAt(s, i, name) {
      forall k | 0 <= k < n
        ensures w[k] == m[k]
      {
        if 9 <= k < 9 + |name| {
          assert w[k] == s[i + 9..i + 9 + |name|][k - 9];
        }
      }
    }
    if w == m {
      assert s[i + 9..i + 9 + |name|] == w[9..9 + |name|];
      assert w[0] == '<' && w[1] == '!' && w[2] == '-' && w[3] == '-' && w[4] == 'i';
      assert w[5] == 'j' && w[6] == 'w' && w[7] == 't' && w[8] == '_';
      assert w[|name| + 9] == '-' && w[|name| + 10] == '-' && w[|name| + 11] == '>';
    }
  }

  /** A match is a marker written out, its name made of class characters. */
  lemma MarkerAtSound(s: string, i: nat)
    requires i <= |s|
    ensures var name := MarkerAt(s, i);
      name.Some? ==> Located(s, Found(name.value, i + |name.value| + 12))
  {
    var j := i + |MarkerOpen|;
    if MarkerAt(s, i).Some? {
      var e := RunEnd(s, j);
      var name := s[j..e - 2];
      RunEndSound(s, j);
      assert ValidName(name) by {
        forall k | 0 <= k < |name|
          ensures IsNameChar(name[k])
        {
          assert name[k] == s[j + k];
        }
      }
      assert WrittenAt(s, i, name);
      WrittenAtMarker(s, i, name);
    }
  }

  /** One result of `search_file`: the name and the offset just past `-->`. */
  datatype Found = Found(fileName: string, insertLocation: nat)

  /** Where the marker of a result begins. */
  function Start(f: Found): int
  {
    f.insertLocation - |f.fileName| - 12
  }

  /** `f` stands for a marker of `s`: the text ending at its offset is the comment. */
  predicate Located(s: string, f: Found)
  {
    ValidName(f.fileName) && 0 <= Start(f) && f.insertLocation <= |s| &&
    s[Start(f)..f.insertLocation] == Marker(f.fileName)
  }

  /**
   * The matches of the global `matchAll` from position `from` on: each
   * search starts where the previous match ended.
   */
  function Scan(s: string, from: nat): seq<Found>
    requires from <= |s|
    decreases |s| - from
  {
    if from == |s| then []
    else
      match MarkerAt(s, from)
      case None => Scan(s, from + 1)
      case Some(name) => [Found(name, from + |name| + 12)] + Scan(s, from + |name| + 12)
  }

  /** Results located in `s`, each starting at `from` or later, each ending before the next begins. */
  predicate InOrder(s: string, from: int, r: seq<Found>)
  {
    (forall k :: 0 <= k < |r| ==> Located(s, r[k]) && from <= Start(r[k])) &&
    (forall k, l :: 0 <= k < l < |r| ==> r[k].insertLocation <= Start(r[l]))
  }

  /** The same order stated link by link: each result starts at or after the end of the one before. */
  predicate Chained(s: string, from: int, r: seq<Found>)
    decreases |r|
  {
    r == [] || (Located(s, r[0]) && from <= Start(r[0]) && Chained(s, r[0].insertLocation, r[1..]))
  }

  lemma {:induction false} ChainedInOrder(s: string, from: int, r: seq<Found>)
    requires Chained(s, from, r)
    ensures InOrder(s, from, r)
    decreases |r|
  {
    if r != [] {
      var rest := r[1..];
      ChainedInOrder(s, r[0].insertLocation, rest);
      forall k | 0 <= k < |r|
        ensures Located(s, r[k]) && from <= Start(r[k])
      {
        if k > 0 {
          assert r[k] == rest[k - 1];
          assert Start(r[0]) <= r[0].insertLocation;
        }
      }
      forall k, l | 0 <= k < l < |r|
        ensures r[k].insertLocation <= Start(r[l])
      {
        assert r[l] == rest[l - 1];
        if k > 0 {
          assert r[k] == rest[k - 1];
        }
      }
    }
  }

  /**
   * Every result stands for a marker of the text, and the markers follow
   * one another without overlapping: each ends before the next begins.
   */
  lemma ScanLocated(s: string, from: nat)
    requires from <= |s|
    ensures InOrder(s, from, Scan(s, from))
  {
    ScanChained(s, from);
    ChainedInOrder(s, from, Scan(s, from));
  }

  lemma {:induction false} ScanChained(s: string, from: nat)
    requires from <= |s|
    ensures Chained(s, from, Scan(s, from))
    decreases |s| - from
  {
    if from < |s| {
      var marker := MarkerAt(s, from);
      if marker.None? {
        ScanChained(s, from + 1);
        SkipChained(s, from);
      } else {
        MarkerAtSound(s, from);
        ScanChained(s, from + |marker.value| + 12);
        MatchChained(s, from, marker.value);
      }
    }
  }

  /** A position where no match starts adds nothing to what follows. */
  lemma SkipChained(s: string, from: nat)
    requires from < |s| && MarkerAt(s, from).None? && Chained(s, from + 1, Scan(s, from + 1))
    ensures Chained(s, from, Scan(s, from))
  {
    assert Scan(s, from) == Scan(s, from + 1);
  }

  /** A match at `from` is a located result that ends before the rest begins. */
  lemma MatchChained(s: string, from: nat, name: string)
    requires from < |s| && MarkerAt(s, from) == Some(name) && from + |name| + 12 <= |s|
    requires Chained(s, from + |name| + 12, Scan(s, from + |name| + 12))
    ensures Chained(s, from, Scan(s, from))
  {
    MarkerAtSound(s, from);
    var f := Found(name, from + |name| + 12);
    var r := [f] + Scan(s, f.insertLocation);
    assert Scan(s, from) == r;
    assert r[0] == f && r[1..] == Scan(s, f.insertLocation);
    assert Start(f) == from;
  }

  /**
   * `search_file`: the markers of a text.  With its default argument, or
   * with none (`undefined`), the function calls `matchAll` on an unawaited
   * promise, which throws; that case is `None`.
   */
  function SearchFile(content: Option<string>): Option<seq<Found>>
  {
    if content.None? || content.value == CurrentSentinel then None
    else Some(Scan(content.value, 0))
  }

  /** The names of the results, in order. */
  function Names(fs: seq<Found>): (names: seq<string>)
    ensures |names| == |fs|
  {
    if fs == [] then [] else [fs[0].fileName] + Names(fs[1..])
  }

  /** A text with no `<!--ijwt_` in it has no marker. */
  lemma {:induction false} ScanNone(s: string, from: nat)
    requires from <= |s|
    requires forall i :: from <= i <= |s| ==> !OpensAt(s, i)
    ensures Scan(s, from) == []
    decreases |s| - from
  {
    if from < |s| {
      ScanNone(s, from + 1);
    }
  }

  /** A run that visibly ends at `e` is found to end there. */
  lemma {:induction false} RunEndAt(s: string, i: nat, e: nat)
    requires i <= e < |s| && !IsNameChar(s[e])
    requires forall k :: i <= k < e ==> IsNameChar(s[k])
    ensures RunEnd(s, i) == e
    decreases e - i
  {
    if i < e {
      RunEndAt(s, i + 1, e);
    }
  }

  /** A marker written out at `i` is matched there, whatever follows it. */
  lemma MarkerFound(s: string, i: nat, name: string)
    requires ValidName(name) && i + |name| + 12 <= |s| && s[i..i + |name| + 12] == Marker(name)
    ensures MarkerAt(s, i) == Some(name)
  {
    WrittenAtMarker(s, i, name);
    var j, e := i + |MarkerOpen|, i + |MarkerOpen| + |name| + 2;
    forall k | j <= k < e
      ensures IsNameChar(s[k])
    {
      if k < j + |name| {
        assert s[k] == s[j..j + |name|][k - j] == name[k - j];
      }
    }
    RunEndAt(s, j, e);
  }

  /** Scanning skips over a text holding no `<`. */
  lemma {:induction false} SkipText(s: string, from: nat, t: string)
    requires from + |t| <= |s| && s[from..from + |t|] == t
    requires NoOpen(t)
    ensures Scan(s, from) == Scan(s, from + |t|)
    decreases |t|
  {
    if t != [] {
      assert s[from] == s[from..from + |t|][0] == t[0] != '<';
      assert Scan(s, from) == Scan(s, from + 1);
      assert s[from + 1..from + |t|] == t[1..];
      SkipText(s, from + 1, t[1..]);
    }
  }

  /** A text with no `<` in it. */
  predicate NoOpen(t: string)
  {
    forall l :: 0 <= l < |t| ==> t[l] != '<'
  }

  lemma NamesCons(f: Found, r: seq<Found>)
    ensures Names([f] + r) == [f.fileName] + Names(r)
  {
    assert ([f] + r)[1..] == r;
  }

  /** A template: texts free of `<` with a marker between each two. */
  function Render(texts: seq<string>, names: seq<string>): string
    requires |texts| == |names| + 1
    decreases |names|
  {
    if names == [] then texts[0]
    else texts[0] + Marker(names[0]) + Render(texts[1..], names[1..])
  }

  /** A marker written out at `p` is the next match, and the search goes on past it. */
  lemma MarkerStep(s: string, p: nat, name: string)
    requires ValidName(name) && p + |name| + 12 <= |s| && s[p..p + |name| + 12] == Marker(name)
    ensures Scan(s, p) == [Found(name, p + |name| + 12)] + Scan(s, p + |name| + 12)
  {
    MarkerFound(s, p, name);
  }

  /** The pieces of a suffix laid out as `a + b + rest`. */
  lemma SuffixParts<T>(s: seq<T>, from: nat, a: seq<T>, b: seq<T>, rest: seq<T>)
    requires from <= |s| && s[from..] == a + b + rest
    ensures from + |a| + |b| <= |s|
    ensures s[from..from + |a|] == a && s[from + |a|..from + |a| + |b|] == b && s[from + |a| + |b|..] == rest
  {
    assert s[from..from + |a|] == s[from..][..|a|];
    assert s[from + |a|..from + |a| + |b|] == s[from..][|a|..|a| + |b|];
    assert s[from + |a| + |b|..] == s[from..][|a| + |b|..];
  }

  /** Scanning a rendered template finds its markers, in order. */
  lemma {:induction false} ScanRendered(s: string, from: nat, texts: seq<string>, names: seq<string>)
    requires |texts| == |names| + 1 && from <= |s| && s[from..] == Render(texts, names)
    requires forall k :: 0 <= k < |texts| ==> NoOpen(texts[k])
    requires forall k :: 0 <= k < |names| ==> ValidName(names[k])
    ensures Names(Scan(s, from)) == names
    decreases |names|
  {
    var t := texts[0];
    if names == [] {
      SuffixParts(s, from, t, [], []);
      SkipText(s, from, t);
      assert from + |t| == |s|;
      assert Scan(s, from) == [];
    } else {
      var q := from + |t| + |names[0]| + 12;
      TemplateStep(s, from, t, names[0], Render(texts[1..], names[1..]));
      ScanRendered(s, q, texts[1..], names[1..]);
      NamesCons(Found(names[0], q), Scan(s, q));
      assert [names[0]] + names[1..] == names;
    }
  }

  /** A text, then a marker: the marker is the next match, and the search goes on after it. */
  lemma TemplateStep(s: string, from: nat, t: string, name: string, rest: string)
    requires from <= |s| && s[from..] == t + Marker(name) + rest && NoOpen(t) && ValidName(name)
    ensures var q := from + |t| + |name| + 12;
      q <= |s| && s[q..] == rest && Scan(s, from) == [Found(name, q)] + Scan(s, q)
  {
    SuffixParts(s, from, t, Marker(name), rest);
    SkipMarker(s, from, t, name);
  }

  lemma SkipMarker(s: string, from: nat, t: string, name: string)
    requires from + |t| + |name| + 12 <= |s| && NoOpen(t) && ValidName(name)
    requires s[from..from + |t|] == t && s[from + |t|..from + |t| + |name| + 12] == Marker(name)
    ensures var q := from + |t| + |name| + 12;
      Scan(s, from) == [Found(name, q)] + Scan(s, q)
  {
    SkipText(s, from, t);
    MarkerStep(s, from + |t|, name);
  }

  /** `search_file` on a template gives back the names it was made from. */
  lemma SearchRendered(texts: seq<string>, names: seq<string>)
    requires |texts| == |names| + 1
    requires forall k :: 0 <= k < |texts| ==> NoOpen(texts[k])
    requires forall k :: 0 <= k < |names| ==> ValidName(names[k])
    requires Render(texts, names) != CurrentSentinel
    ensures var r := SearchFile(Some(Render(texts, names)));
      r.Some? && Names(r.value) == names
  {
    var s := Render(texts, names);
    assert s[0..] == s;
    ScanRendered(s, 0, texts, names);
  }

  /** The example of one marker: `<!--ijwt_nav.html-->` in a page. */
  lemma NavValid()
    ensures ValidName("nav.html")
  {
    var n := "nav.html";
    assert n[0] == 'n' && n[1] == 'a' && n[2] == 'v' && n[3] == '.';
    assert n[4] == 'h' && n[5] == 't' && n[6] == 'm' && n[7] == 'l';
  }

  lemma SearchExample()
    ensures SearchFile(Some("<p>" + Marker("nav.html") + "</p>")) == Some([Found("nav.html", 23)])
  {
    var m := Marker("nav.html");
    var s := "<p>" + m + "</p>";
    SuffixParts(s, 0, "<p>", m, "</p>");
    assert |s| == 27 && s != CurrentSentinel;
    assert s[0] == '<' && s[1] == 'p' && s[2] == '>';
    assert Scan(s, 0) == Scan(s, 1);
    SkipText(s, 1, "p>");
    NavValid();
    MarkerStep(s, 3, "nav.html");
    ScanNone(s, 23);
    assert Scan(s, 3) == [Found("nav.html", 23)];
  }

  // ---------------------------------------------------------------------
  // `search_directives`, `get_file_data` and `fetch_file_data`
  // ---------------------------------------------------------------------

  /** The URL tried for `name` in directory `x`: `${base_url}/${dir}/${name}`. */
  function DirectiveQuery(baseUrl: string, x: nat, name: string): string
    requires x < |DirectiveList|
  {
    baseUrl + "/" + DirectiveList[x] + "/" + name
  }

  /** The first directory, from `from` on, whose request answers with `ok`. */
  function FirstDirective(net: Resolver.Network, baseUrl: string, name: string, from: nat): (r: Option<nat>)
    requires from <= |DirectiveList|
    ensures r.Some? ==> from <= r.value < |DirectiveList| && DirectiveQuery(baseUrl, r.value, name) in net.ok
    ensures r.Some? ==> forall y :: from <= y < r.value ==> DirectiveQuery(baseUrl, y, name) !in net.ok
    ensures r.None? ==> forall y :: from <= y < |DirectiveList| ==> DirectiveQuery(baseUrl, y, name) !in net.ok
    decreases |DirectiveList| - from
  {
    if from == |DirectiveList| then None
    else if DirectiveQuery(baseUrl, from, name) in net.ok then Some(from)
    else FirstDirective(net, baseUrl, name, from + 1)
  }

  /**
   * `search_directives`: the URL of the first directory that answers, tried
   * in list order, and no later one; `undefined` when none does.
   */
  method SearchDirectives(net: Resolver.Network, baseUrl: string, name: string) returns (r: Option<string>)
    ensures r.Some? <==> FirstDirective(net, baseUrl, name, 0).Some?
    ensures r.Some? ==> r.value == DirectiveQuery(baseUrl, FirstDirective(net, baseUrl, name, 0).value, name)
  {
    for x := 0 to |DirectiveList|
      invariant FirstDirective(net, baseUrl, name, 0) == FirstDirective(net, baseUrl, name, x)
    {
      var query := baseUrl + "/" + DirectiveList[x] + "/" + name;
      if query in net.ok {
        return Some(query);
      }
    }
    return None;
  }

  /**
   * `get_file_data`: the text of a successful response.  `fetch` turns an
   * `undefined` URL into the string "undefined".
   */
  function GetFileData(net: Resolver.Network, url: Option<string>): (r: Option<string>)
    ensures r.Some? <==> (if url.Some? then url.value else "undefined") in net.ok
  {
    var u := if url.Some? then url.value else "undefined";
    if u in net.ok then Some(net.ok[u]) else None
  }

  /** The text `fetch_file_data(name)` yields. */
  function Fetch(net: Resolver.Network, baseUrl: string, name: string): Option<string>
  {
    var found := FirstDirective(net, baseUrl, name, 0);
    GetFileData(net, if found.Some? then Some(DirectiveQuery(baseUrl, found.value, name)) else None)
  }

  /** `fetch_file_data`: the search, then a request for the URL found. */
  method FetchFileData(net: Resolver.Network, baseUrl: string, name: string) returns (r: Option<string>)
    ensures r == Fetch(net, baseUrl, name)
  {
    var url := SearchDirectives(net, baseUrl, name);
    r := GetFileData(net, url);
  }

  /** A file found in an earlier directory is the one fetched. */
  lemma FetchFirstDirectory(net: Resolver.Network, baseUrl: string, name: string, x: nat)
    requires x < |DirectiveList| && DirectiveQuery(baseUrl, x, name) in net.ok
    requires forall y :: 0 <= y < x ==> DirectiveQuery(baseUrl, y, name) !in net.ok
    ensures Fetch(net, baseUrl, name) == Some(net.ok[DirectiveQuery(baseUrl, x, name)])
  {
  }

  // ---------------------------------------------------------------------
  // `Node` and `build_tree`
  // ---------------------------------------------------------------------

  /**
   * What a node holds: the text it was built from, or, between the two
   * loops of `build_tree`, the fetched text and the offset of its marker.
   */
  datatype NodeData = Content(text: string) | Pending(fileContent: Option<string>, insertLocation: nat)

  datatype Node = Node(data: NodeData, children: seq<Node>)
  {
    /** `add`: a new leaf goes last; the earlier children are untouched. */
    function Add(d: NodeData): (n: Node)
      ensures n.data == data && |n.children| == |children| + 1
      ensures n.children[..|children|] == children && n.children[|children|] == Node(d, [])
    {
      Node(data, children + [Node(d, [])])
    }
  }

  /** How a build ends: a tree, an exception, or the depth bound reached. */
  datatype Outcome<T> = Built(value: T) | Thrown | OutOfFuel

  /** The argument as `build_tree` receives it: `undefined` takes the default. */
  function Argument(arg: Option<string>): string
  {
    if arg.Some? then arg.value else ParentSentinel
  }

  /** The text searched: the base page when the argument is the sentinel. */
  function Source(net: Resolver.Network, baseUrl: string, content: string): Option<string>
  {
    if content == ParentSentinel then Fetch(net, baseUrl, BasePage) else Some(content)
  }

  /** The first loop's children: one per marker, holding its fetched text and offset. */
  function PendingChildren(net: Resolver.Network, baseUrl: string, found: seq<Found>): (cs: seq<Node>)
    ensures |cs| == |found|
    ensures forall k :: 0 <= k < |found| ==>
      cs[k] == Node(Pending(Fetch(net, baseUrl, found[k].fileName), found[k].insertLocation), [])
  {
    seq(|found|, k requires 0 <= k < |found| =>
      Node(Pending(Fetch(net, baseUrl, found[k].fileName), found[k].insertLocation), []))
  }

  /**
   * `build_tree` with `fuel` bounding the depth of nested calls: the source
   * has no bound, and a missing file sends it back to the base page.
   */
  function BuildTreeSpec(net: Resolver.Network, baseUrl: string, arg: Option<string>, fuel: nat): Outcome<Node>
    decreases fuel, 1
  {
    var content := Argument(arg);
    match SearchFile(Source(net, baseUrl, content))
    case None => Thrown
    case Some(found) =>
      match BuildForest(net, baseUrl, PendingChildren(net, baseUrl, found), fuel)
      case Built(cs) => Built(Node(Content(content), cs))
      case Thrown => Thrown
      case OutOfFuel => OutOfFuel
  }

  /** Every child still holds a fetched text: the state between the two loops. */
  predicate AllPending(pending: seq<Node>)
  {
    forall k :: 0 <= k < |pending| ==> pending[k].data.Pending?
  }

  /** The second loop: each pending child replaced by the tree of its text, in order. */
  function BuildForest(net: Resolver.Network, baseUrl: string, pending: seq<Node>, fuel: nat): Outcome<seq<Node>>
    requires AllPending(pending)
    decreases fuel, 0, |pending|
  {
    if pending == [] then Built([])
    else
      match BuildForest(net, baseUrl, pending[..|pending| - 1], fuel)
      case Built(cs) =>
        var last := pending[|pending| - 1];
        if fuel == 0 then OutOfFuel
        else (
          match BuildTreeSpec(net, baseUrl, last.data.fileContent, fuel - 1)
          case Built(t) => Built(cs + [t])
          case Thrown => Thrown
          case OutOfFuel => OutOfFuel)
      case Thrown => Thrown
      case OutOfFuel => OutOfFuel
  }

  /** Once a child fails, the rest of the second loop does not change the outcome. */
  lemma {:induction false} ForestStops(net: Resolver.Network, baseUrl: string, pending: seq<Node>, fuel: nat, i: nat)
    requires AllPending(pending) && i <= |pending| && !BuildForest(net, baseUrl, pending[..i], fuel).Built?
    ensures BuildForest(net, baseUrl, pending, fuel) == BuildForest(net, baseUrl, pending[..i], fuel)
    decreases |pending| - i
  {
    if i < |pending| {
      var p := pending[..|pending| - 1];
      assert p[..i] == pending[..i];
      ForestStops(net, baseUrl, p, fuel, i);
    } else {
      assert pending[..i] == pending;
    }
  }

  /** The tree of an argument whose text has markers, in terms of the second loop. */
  lemma SpecOfForest(net: Resolver.Network, baseUrl: string, arg: Option<string>, fuel: nat, found: seq<Found>)
    requires SearchFile(Source(net, baseUrl, Argument(arg))) == Some(found)
    ensures BuildTreeSpec(net, baseUrl, arg, fuel) ==
      match BuildForest(net, baseUrl, PendingChildren(net, baseUrl, found), fuel)
      case Built(cs) => Built(Node(Content(Argument(arg)), cs))
      case Thrown => Thrown
      case OutOfFuel => OutOfFuel
  {
  }

  /** One more turn of the first loop. */
  lemma PendingStep(net: Resolver.Network, baseUrl: string, found: seq<Found>, x: nat)
    requires x < |found|
    ensures PendingChildren(net, baseUrl, found[..x + 1]) ==
      PendingChildren(net, baseUrl, found[..x]) + [Node(Pending(Fetch(net, baseUrl, found[x].fileName), found[x].insertLocation), [])]
  {
    var a, b := PendingChildren(net, baseUrl, found[..x + 1]), PendingChildren(net, baseUrl, found[..x]);
    assert |a| == |b| + 1;
    forall k | 0 <= k < x
      ensures a[k] == b[k]
    {
      assert found[..x + 1][k] == found[..x][k];
    }
  }

  /** A turn of the second loop whose child is built. */
  lemma ForestGrows(net: Resolver.Network, baseUrl: string, pending: seq<Node>, fuel: nat, x: nat, cs: seq<Node>, t: Node)
    requires AllPending(pending) && x < |pending| && fuel > 0
    requires BuildForest(net, baseUrl, pending[..x], fuel) == Built(cs)
    requires BuildTreeSpec(net, baseUrl, pending[x].data.fileContent, fuel - 1) == Built(t)
    ensures BuildForest(net, baseUrl, pending[..x + 1], fuel) == Built(cs + [t])
  {
    assert pending[..x + 1][..x] == pending[..x];
  }

  /** A turn of the second loop whose child fails: the whole loop fails alike. */
  lemma ForestFails(net: Resolver.Network, baseUrl: string, pending: seq<Node>, fuel: nat, x: nat, cs: seq<Node>, o: Outcome<Node>)
    requires AllPending(pending) && x < |pending| && !o.Built?
    requires BuildForest(net, baseUrl, pending[..x], fuel) == Built(cs)
    requires o == if fuel == 0 then OutOfFuel else BuildTreeSpec(net, baseUrl, pending[x].data.fileContent, fuel - 1)
    ensures BuildForest(net, baseUrl, pending, fuel) == if o.Thrown? then Thrown else OutOfFuel
  {
    assert pending[..x + 1][..x] == pending[..x];
    ForestStops(net, baseUrl, pending, fuel, x + 1);
  }

  /** Replacing item `x` extends the prefix before it and keeps what follows. */
  lemma ReplaceAt<T>(s: seq<T>, x: nat, t: T)
    requires x < |s|
    ensures s[x := t][..x + 1] == s[..x] + [t] && s[x := t][x + 1..] == s[x + 1..]
  {
  }

  /** A finished second loop holds, in order, the tree of each pending child. */
  lemma {:induction false} ForestBuilt(net: Resolver.Network, baseUrl: string, pending: seq<Node>, fuel: nat, cs: seq<Node>)
    requires AllPending(pending) && BuildForest(net, baseUrl, pending, fuel) == Built(cs)
    ensures |cs| == |pending|
    ensures pending != [] ==> fuel > 0
    ensures forall k :: 0 <= k < |pending| ==>
      pending[k].data.Pending? && BuildTreeSpec(net, baseUrl, pending[k].data.fileContent, fuel - 1) == Built(cs[k])
    decreases |pending|
  {
    if pending != [] {
      var n := |pending| - 1;
      var init := pending[..n];
      var prev := BuildForest(net, baseUrl, init, fuel);
      assert prev.Built? && fuel > 0;
      ForestBuilt(net, baseUrl, init, fuel, prev.value);
      assert cs == prev.value + [cs[n]];
      forall k | 0 <= k < n
        ensures pending[k].data.Pending? && BuildTreeSpec(net, baseUrl, pending[k].data.fileContent, fuel - 1) == Built(cs[k])
      {
        assert pending[k] == init[k] && cs[k] == prev.value[k];
      }
    }
  }

  /**
   * A built tree keeps its argument as its data and has exactly one child
   * per marker of its text, in scan order, each the tree of that marker's
   * fetched text, whether or not the fetch found the file.
   */
  lemma BuildShape(net: Resolver.Network, baseUrl: string, arg: Option<string>, fuel: nat)
    requires BuildTreeSpec(net, baseUrl, arg, fuel).Built?
    ensures var n := BuildTreeSpec(net, baseUrl, arg, fuel).value;
      var found := SearchFile(Source(net, baseUrl, Argument(arg)));
      found.Some? && n.data == Content(Argument(arg)) && |n.children| == |found.value| &&
      forall k :: 0 <= k < |found.value| ==>
        BuildTreeSpec(net, baseUrl, Fetch(net, baseUrl, found.value[k].fileName), fuel - 1) == Built(n.children[k])
  {
    var found := SearchFile(Source(net, baseUrl, Argument(arg))).value;
    var pending := PendingChildren(net, baseUrl, found);
    var n := BuildTreeSpec(net, baseUrl, arg, fuel).value;
    ForestBuilt(net, baseUrl, pending, fuel, n.children);
  }

  /** `undefined` and the sentinel are the same argument: the base page is built. */
  lemma DefaultArgument(net: Resolver.Network, baseUrl: string, fuel: nat)
    ensures BuildTreeSpec(net, baseUrl, None, fuel) == BuildTreeSpec(net, baseUrl, Some(ParentSentinel), fuel)
    ensures Source(net, baseUrl, Argument(None)) == Fetch(net, baseUrl, BasePage)
    ensures var t := BuildTreeSpec(net, baseUrl, None, fuel); t.Built? ==> t.value.data == Content(ParentSentinel)
  {
  }

  /**
   * A marker whose file no directory has yields a child built from
   * `undefined`, that is from the base page again.
   */
  lemma MissingFileRebuildsBase(net: Resolver.Network, baseUrl: string, arg: Option<string>, fuel: nat, k: nat)
    requires BuildTreeSpec(net, baseUrl, arg, fuel).Built?
    requires var found := SearchFile(Source(net, baseUrl, Argument(arg)));
      found.Some? && k < |found.value| && Fetch(net, baseUrl, found.value[k].fileName).None?
    ensures var n := BuildTreeSpec(net, baseUrl, arg, fuel).value;
      k < |n.children| && n.children[k].data == Content(ParentSentinel)
  {
    BuildShape(net, baseUrl, arg, fuel);
    var found := SearchFile(Source(net, baseUrl, Argument(arg))).value;
    var n := BuildTreeSpec(net, baseUrl, arg, fuel).value;
    assert BuildTreeSpec(net, baseUrl, None, fuel - 1) == Built(n.children[k]);
    DefaultArgument(net, baseUrl, fuel - 1);
  }

  /**
   * When the base page marks a file that no directory has, building the
   * base page never ends: whatever the depth bound, it is reached.
   */
  lemma {:induction false} MissingIncludeNeverEnds(net: Resolver.Network, baseUrl: string, fuel: nat)
    requires var found := SearchFile(Fetch(net, baseUrl, BasePage));
      found.Some? && |found.value| > 0 && Fetch(net, baseUrl, found.value[0].fileName).None?
    ensures BuildTreeSpec(net, baseUrl, None, fuel) == OutOfFuel
  {
    var found := SearchFile(Fetch(net, baseUrl, BasePage)).value;
    var pending := PendingChildren(net, baseUrl, found);
    assert pending[..0] == [];
    if fuel > 0 {
      MissingIncludeNeverEnds(net, baseUrl, fuel - 1);
    }
    assert pending[0].data.fileContent == None;
    ForestStops(net, baseUrl, pending, fuel, 1);
  }

  /**
   * The second loop of `build_tree`: child `x` replaced, in place and in
   * order, by the tree of its fetched text; the first failure ends it.
   */
  method BuildSubtrees(net: Resolver.Network, baseUrl: string, pending: seq<Node>, fuel: nat) returns (r: Outcome<seq<Node>>)
    requires AllPending(pending)
    ensures r == BuildForest(net, baseUrl, pending, fuel)
    decreases fuel, 0
  {
    var children := pending;
    for x := 0 to |children|
      invariant |children| == |pending| && children[x..] == pending[x..]
      invariant BuildForest(net, baseUrl, pending[..x], fuel) == Built(children[..x])
    {
      assert children[x] == pending[x];
      if fuel == 0 {
        ForestFails(net, baseUrl, pending, fuel, x, children[..x], OutOfFuel);
        return OutOfFuel;
      }
      var sub := BuildTree(net, baseUrl, children[x].data.fileContent, fuel - 1);
      if !sub.Built? {
        ForestFails(net, baseUrl, pending, fuel, x, children[..x], sub);
        return if sub.Thrown? then Thrown else OutOfFuel;
      }
      ForestGrows(net, baseUrl, pending, fuel, x, children[..x], sub.value);
      ReplaceAt(children, x, sub.value);
      children := children[x := sub.value];
    }
    assert pending[..|pending|] == pending && children[..|pending|] == children;
    return Built(children);
  }

  /**
   * `build_tree`: the node keeps its argument; the first loop adds one
   * pending child per marker, the second replaces each by its own tree.
   */
  method BuildTree(net: Resolver.Network, baseUrl: string, arg: Option<string>, fuel: nat) returns (r: Outcome<Node>)
    ensures r == BuildTreeSpec(net, baseUrl, arg, fuel)
    decreases fuel, 1
  {
    var content := if arg.Some? then arg.value else ParentSentinel;
    var node := Node(Content(content), []);
    var source := Some(content);
    if content == ParentSentinel {
      source := FetchFileData(net, baseUrl, BasePage);
    }
    assert content == Argument(arg) && source == Source(net, baseUrl, content);
    var filesFound := SearchFile(source);
    if filesFound.None? {
      return Thrown;
    }
    var found := filesFound.value;
    SpecOfForest(net, baseUrl, arg, fuel, found);
    for x := 0 to |found|
      invariant node.data == Content(content)
      invariant node.children == PendingChildren(net, baseUrl, found[..x])
    {
      var fileContent := FetchFileData(net, baseUrl, found[x].fileName);
      PendingStep(net, baseUrl, found, x);
      node := node.Add(Pending(fileContent, found[x].insertLocation));
    }
    assert found[..|found|] == found;
    var subtrees := BuildSubtrees(net, baseUrl, node.children, fuel);
    if !subtrees.Built? {
      return if subtrees.Thrown? then Thrown else OutOfFuel;
    }
    node := node.(children := subtrees.value);
    return Built(node);
  }
}
