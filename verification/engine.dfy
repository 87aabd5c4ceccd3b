/**
 * The `iJWT` class (source/ijwt.ts:32-253).  Its settings are fixed by the
 * constructor; the browser's `localStorage` is the field `storage`, which
 * `cache_control` and the methods that call it update.  Each method is
 * proved to compute the function that specifies it in `Resolver`, `Tree`,
 * `Collapser` or `Cleanup`.
 */
module Engine {
  import opened Wrappers
  import opened Cache
  import opened Dom
  import opened Scanner
  import opened Hash
  import opened Url
  import opened Resolver
  import opened Tree
  import opened Collapser
  import opened Cleanup

  /** The constructor's options object; an absent field takes its default. */
  datatype Options = Options(
    sitePath: Option<string>,
    directories: Option<seq<string>>,
    index: Option<string>,
    mode: Option<Mode>)

  /** The `method` argument of `cache_control`. */
  datatype CacheMethod = SetEntry | GetEntry | ClearAll | DeleteEntry

  const DefaultDirectories: seq<string> := ["", "pages", "partials", "static/css", "static/scripts"]

  function OrElse<T>(o: Option<T>, default: T): T
  {
    if o.Some? then o.value else default
  }

  class IJwt {
    const sitePath: string
    const directories: seq<string>
    const index: string
    const mode: Mode
    const siteBase: string
    /** `window.localStorage`. */
    var storage: Store

    /**
     * The settings with their defaults (`/`, the five directories,
     * `index.html`, development), and the site base computed from the page's
     * address `href` (`window.location.href`).
     */
    constructor(href: string, options: Options, store: Store)
      ensures sitePath == OrElse(options.sitePath, "/")
      ensures directories == OrElse(options.directories, DefaultDirectories)
      ensures index == OrElse(options.index, "index.html")
      ensures mode == OrElse(options.mode, Development)
      ensures siteBase == SiteBase(href, sitePath)
      ensures storage == store
    {
      sitePath := OrElse(options.sitePath, "/");
      index := OrElse(options.index, "index.html");
      directories := OrElse(options.directories, DefaultDirectories);
      mode := OrElse(options.mode, Development);
      siteBase := SiteBase(href, OrElse(options.sitePath, "/"));
      storage := store;
    }

    /** What the directory search depends on. */
    function Settings(): Config
    {
      Config(mode, siteBase, directories)
    }

    /**
     * `cache_control`: `set`, `delete` and `clear` change the store and
     * answer nothing; `get` changes nothing and answers the entry.
     */
    method CacheControl(name: string, action: CacheMethod, data: string) returns (r: Option<string>)
      modifies this
      ensures action == SetEntry ==> storage == Set(old(storage), name, data) && r.None?
      ensures action == DeleteEntry ==> storage == Delete(old(storage), name) && r.None?
      ensures action == ClearAll ==> storage == Clear(old(storage)) && r.None?
      ensures action == GetEntry ==> storage == old(storage) && r == Get(old(storage), name)
    {
      if action == SetEntry {
        storage := Set(storage, name, data);
      }
      if action == DeleteEntry {
        storage := Delete(storage, name);
      }
      if action == ClearAll {
        storage := Clear(storage);
      }
      if action == GetEntry {
        return Get(storage, name);
      }
      return None;
    }

    /**
     * `fetch_file_data`: the cached text in production, else the body of the
     * first directory whose request succeeds, written to the cache in
     * production.
     */
    method FetchFileData(net: Network, name: string) returns (r: Option<string>)
      modifies this
      ensures r == Fetch(Settings(), net, old(storage), name).0
      ensures storage == Fetch(Settings(), net, old(storage), name).1
    {
      var cached := CacheControl(name, GetEntry, "");
      if cached.Some? && mode == Production {
        return cached;
      }
      for i := 0 to |directories|
        invariant storage == old(storage)
        invariant forall j :: 0 <= j < i ==> Query(Settings(), net, directories[j], name) !in net.ok
      {
        var query := net.resolve(directories[i] + "/" + name, siteBase);
        if query in net.ok {
          var pageData := net.ok[query];
          if mode == Production {
            var _ := CacheControl(name, SetEntry, pageData);
          }
          assert FirstOk(Settings(), net, name, 0) == Some(i);
          return Some(pageData);
        }
      }
      return None;
    }

    /** `search_directories`: the URL of the first directory whose request succeeds. */
    method SearchDirectories(net: Network, name: string) returns (r: Option<string>)
      ensures r == Search(Settings(), net, name)
    {
      for i := 0 to |directories|
        invariant forall j :: 0 <= j < i ==> Query(Settings(), net, directories[j], name) !in net.ok
      {
        var query := net.resolve(directories[i] + "/" + name, siteBase);
        if query in net.ok {
          assert FirstOk(Settings(), net, name, 0) == Some(i);
          return Some(query);
        }
      }
      return None;
    }

    /**
     * `generate_node_tree`: a leaf for a document without placeholders;
     * otherwise each file name is fetched in turn and every non-empty text
     * is parsed, built and added as the next child.  `fuel` bounds the
     * depth of the recursion; `None` means it ran out.
     */
    method GenerateNodeTree(net: Network, parse: Parser, doc: Body, fuel: nat) returns (r: Option<Node>)
      modifies this
      ensures r == Build(Settings(), net, parse, old(storage), doc, fuel).0
      ensures storage == Build(Settings(), net, parse, old(storage), doc, fuel).1
      decreases fuel
    {
      var filesFound := GetFilesWanted(doc, PlaceholderSelector);
      if |filesFound| == 0 {
        return Some(Node(doc, []));
      }
      if fuel == 0 {
        return None;
      }
      var fileNames := ExtractFileNames(ElementsAt(doc, filesFound));
      var node := Node(doc, []);
      for index := 0 to |fileNames|
        invariant BuildChildren(Settings(), net, parse, storage, fileNames[index..], node, fuel - 1)
          == BuildChildren(Settings(), net, parse, old(storage), fileNames, Node(doc, []), fuel - 1)
      {
        assert fileNames[index..][1..] == fileNames[index + 1..];
        var fileData := FetchFileData(net, fileNames[index]);
        if fileData.Some? && fileData.value != "" {
          var child := GenerateNodeTree(net, parse, parse(fileData.value), fuel - 1);
          if child.None? {
            return None;
          }
          node := node.Add(child.value);
        }
      }
      return Some(node);
    }

    /**
     * `collapse_node_tree`, loop as written: `index` runs over the keys the
     * children had when the loop began, and each turn that still finds a
     * key shifts the first child off, collapses it and splices its body
     * over placeholder `index`.  `after` is the node as the loop leaves it.
     */
    method CollapseNodeTree(node: Node) returns (doc: Option<Body>, after: Node)
      ensures doc == Collapse(node, false)
      ensures doc.Some? ==> after == Node(doc.value, node.children[CeilHalf(|node.children|)..])
      decreases node
    {
      if |node.children| == 0 {
        return Some(node.data), node;
      }
      var elements := GetFilesWanted(node.data, PlaceholderSelector);
      var n := |node.children|;
      var children := node.children;
      var data := node.data;
      var shift := 0;
      ghost var bodies: seq<Body> := [];
      SplicedStart(node.data);
      ShiftedStart(node.children);
      for index := 0 to n
        invariant Shifted(node.children, index, children, |bodies|)
        invariant |bodies| <= |elements|
        invariant CollapseChildren(node, false, |bodies|) == Some(bodies)
        invariant Spliced(node.data, bodies, data, shift)
      {
        if index < |children| {
          ShiftedVisit(node.children, index, children, |bodies|);
          var childNode := children[0];
          children := children[1..];
          if index >= |elements| {
            return None, Node(data, children);
          }
          var sub, _ := CollapseNodeTree(childNode);
          if sub.None? {
            assert CollapseChildren(node, false, index + 1).None?;
            CollapseChildrenFails(node, false, index + 1, CeilHalf(n));
            return None, Node(data, children);
          }
          assert CollapseChildren(node, false, index + 1) == Some(bodies + [sub.value]);
          assert elements[index] == Cut(node.data, PlaceholderSelector, index);
          SplicedStep(node.data, bodies, sub.value, data, shift);
          var at := elements[index] + shift;
          data := data[..at] + sub.value + data[at + 1..];
          shift := shift + |sub.value| - 1;
          bodies := bodies + [sub.value];
        } else {
          ShiftedSkip(node.children, index, children, |bodies|);
        }
      }
      ShiftedEnd(node.children, children, |bodies|);
      SplicedEnd(node.data, bodies, data, shift);
      return Some(data), Node(data, children);
    }

    /**
     * `cache_manager`: each `.ijwt_cache` element, in document order, is
     * restored from or captured into the cache under `hasher(id).toString()`.
     * The document is returned rather than changed in place.
     */
    method CacheManager(body: Body) returns (r: Body)
      modifies this
      ensures Selected(body, GetFilesWanted(body, CacheSelector))
      ensures r == ManageCaches(mode, old(storage), body, GetFilesWanted(body, CacheSelector)).0
      ensures storage == ManageCaches(mode, old(storage), body, GetFilesWanted(body, CacheSelector)).1
    {
      var cachesWanted := GetFilesWanted(body, CacheSelector);
      r := body;
      for i := 0 to |cachesWanted|
        invariant Selected(r, cachesWanted)
        invariant ManageCaches(mode, storage, r, cachesWanted[i..]) == ManageCaches(mode, old(storage), body, cachesWanted)
      {
        ManageCachesStep(mode, storage, r, cachesWanted, i);
        var element := r[cachesWanted[i]];
        ghost var step := CacheItem(mode, storage, element);
        ghost var next := r[cachesWanted[i] := step.0];
        var hashedCode := Hasher(element.id);
        var data := CacheControl(NumberToString(hashedCode), GetEntry, "");
        if mode == Production && data.Some? {
          r := r[cachesWanted[i] := element.(inner := data.value)];
        } else {
          var _ := CacheControl(NumberToString(hashedCode), SetEntry, element.inner);
        }
        assert r == next && storage == step.1;
      }
      assert cachesWanted[|cachesWanted|..] == [];
    }

    /** `remove_tags`: every `.ijwt_remove` element is deleted, the rest kept in order. */
    method RemoveTags(body: Body) returns (r: Body)
      ensures r == Remove(body, RemoveSelector)
    {
      var found := GetFilesWanted(body, RemoveSelector);
      r := body;
      RemoveStart(body, RemoveSelector);
      for k := 0 to |found|
        invariant r == RemovedUpTo(body, RemoveSelector, k)
      {
        RemoveStep(body, RemoveSelector, k, r);
        r := Without(r, found[k] - k);
      }
      RemoveFinish(body, RemoveSelector, |found|);
    }
  }
}
