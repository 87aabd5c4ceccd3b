/**
 * The include tree (`Node`, source/ijwt.ts:19-30) and the function that
 * `generate_node_tree` (source/ijwt.ts:160-185) computes: each document
 * gets one child per placeholder whose fetched text is non-empty, built
 * recursively from that text.
 */
module Tree {
  import opened Wrappers
  import opened Cache
  import opened Dom
  import opened Scanner
  import opened Resolver

  /** A document and the nodes built from the files it includes. */
  datatype Node = Node(data: Body, children: seq<Node>)
  {
    /** `add`: the child goes last and the earlier children stay as they were. */
    function Add(child: Node): (n: Node)
      ensures n.data == data && |n.children| == |children| + 1
      ensures n.children[..|children|] == children && n.children[|children|] == child
    {
      Node(data, children + [child])
    }
  }

  /** `parse`: the document `DOMParser` makes of a fetched text, as a body. */
  type Parser = string -> Body

  /**
   * `generate_node_tree` as a function of the store: the tree and the store
   * after every fetch.  `fuel` bounds the depth of nested calls; `None`
   * means the bound was reached, where the source would go on recursing.
   */
  function Build(cfg: Config, net: Network, parse: Parser, store: Store, doc: Body, fuel: nat): (Option<Node>, Store)
    decreases fuel, 1, 0
  {
    if Count(doc, PlaceholderSelector) == 0 then (Some(Node(doc, [])), store)
    else if fuel == 0 then (None, store)
    else BuildChildren(cfg, net, parse, store, FileNames(doc), Node(doc, []), fuel - 1)
  }

  /** The loop over the file names: fetch each, and build and add a child for every non-empty text. */
  function BuildChildren(cfg: Config, net: Network, parse: Parser, store: Store, names: seq<string>, node: Node, fuel: nat)
    : (Option<Node>, Store)
    decreases fuel, 2, |names|
  {
    if names == [] then (Some(node), store)
    else
      var (data, store1) := Fetch(cfg, net, store, names[0]);
      if data.Some? && data.value != "" then
        var (child, store2) := Build(cfg, net, parse, store1, parse(data.value), fuel);
        if child.None? then (None, store2)
        else BuildChildren(cfg, net, parse, store2, names[1..], node.Add(child.value), fuel)
      else BuildChildren(cfg, net, parse, store1, names[1..], node, fuel)
  }

  /** What a source of texts gives for the names, keeping only the non-empty texts, in order. */
  function Texts(source: string -> Option<string>, names: seq<string>): (texts: seq<string>)
    ensures |texts| <= |names|
    ensures forall k :: 0 <= k < |texts| ==> texts[k] != ""
    ensures forall k :: 0 <= k < |texts| ==> exists j :: 0 <= j < |names| && source(names[j]) == Some(texts[k])
  {
    if names == [] then []
    else
      var t := source(names[0]);
      (if t.Some? && t.value != "" then [t.value] else []) + Texts(source, names[1..])
  }

  /**
   * The tree described without the store: the children of a document are
   * the trees of the non-empty texts its file names yield, in order.
   */
  function PureBuild(source: string -> Option<string>, parse: Parser, doc: Body, fuel: nat): Option<Node>
    decreases fuel, 1
  {
    if Count(doc, PlaceholderSelector) == 0 then Some(Node(doc, []))
    else if fuel == 0 then None
    else
      match PureChildren(source, parse, Texts(source, FileNames(doc)), fuel - 1)
      case None => None
      case Some(cs) => Some(Node(doc, cs))
  }

  /** The trees of the given texts, in order, when every one of them can be built. */
  function PureChildren(source: string -> Option<string>, parse: Parser, texts: seq<string>, fuel: nat)
    : Option<seq<Node>>
    decreases fuel, 2, |texts|
  {
    if texts == [] then Some([])
    else
      match PureBuild(source, parse, parse(texts[0]), fuel)
      case None => None
      case Some(c) =>
        match PureChildren(source, parse, texts[1..], fuel)
        case None => None
        case Some(cs) => Some([c] + cs)
  }

  /** Child `k` is the tree of text `k`; there is no result when some text's tree cannot be built. */
  lemma {:induction false} PureChildrenSpec(source: string -> Option<string>, parse: Parser, texts: seq<string>, fuel: nat)
    ensures var r := PureChildren(source, parse, texts, fuel);
      r.Some? ==> (|r.value| == |texts| &&
                   forall k :: 0 <= k < |texts| ==> PureBuild(source, parse, parse(texts[k]), fuel) == Some(r.value[k]))
    ensures PureChildren(source, parse, texts, fuel).None? <==>
      exists k :: 0 <= k < |texts| && PureBuild(source, parse, parse(texts[k]), fuel).None?
    decreases |texts|
  {
    if texts != [] {
      var later := texts[1..];
      PureChildrenSpec(source, parse, later, fuel);
      var head := PureBuild(source, parse, parse(texts[0]), fuel);
      var tail := PureChildren(source, parse, later, fuel);
      var r := PureChildren(source, parse, texts, fuel);
      assert r == if head.None? || tail.None? then None else Some([head.value] + tail.value);
      forall k | 1 <= k < |texts|
        ensures texts[k] == later[k - 1]
      {
      }
      if head.None? {
        assert PureBuild(source, parse, parse(texts[0]), fuel).None?;
      } else if tail.None? {
        var k :| 0 <= k < |later| && PureBuild(source, parse, parse(later[k]), fuel).None?;
        assert PureBuild(source, parse, parse(texts[k + 1]), fuel).None?;
      } else {
        forall k | 0 <= k < |texts|
          ensures PureBuild(source, parse, parse(texts[k]), fuel) == Some(r.value[k])
        {
          if k > 0 {
            assert PureBuild(source, parse, parse(later[k - 1]), fuel) == Some(tail.value[k - 1]);
          }
        }
      }
    }
  }

  /** Conversely, texts whose trees are all built give those trees, in order. */
  lemma {:induction false} PureChildrenOfBuilt(source: string -> Option<string>, parse: Parser, texts: seq<string>,
                                               cs: seq<Node>, fuel: nat)
    requires |cs| == |texts|
    requires forall k :: 0 <= k < |texts| ==> PureBuild(source, parse, parse(texts[k]), fuel) == Some(cs[k])
    ensures PureChildren(source, parse, texts, fuel) == Some(cs)
    decreases |texts|
  {
    if texts != [] {
      PureChildrenOfBuilt(source, parse, texts[1..], cs[1..], fuel);
      assert cs == [cs[0]] + cs[1..];
    }
  }

  /** The names of the texts of a single name followed by more. */
  lemma TextsCons(source: string -> Option<string>, name: string, names: seq<string>)
    ensures Texts(source, [name] + names) ==
      (if source(name).Some? && source(name).value != "" then [source(name).value] else []) + Texts(source, names)
  {
    assert ([name] + names)[1..] == names;
  }

  /** `source` yields, for every name, what a fetch through `store` would. */
  ghost predicate Agrees(cfg: Config, net: Network, store: Store, source: string -> Option<string>)
  {
    forall n :: source(n) == Effective(cfg, net, store, n)
  }

  /**
   * The threaded builder computes the tree described without the store, and
   * leaves a store that yields the same texts: fetching through the cache
   * changes nothing a later fetch can see.
   */
  lemma {:induction false} BuildIsPure(cfg: Config, net: Network, parse: Parser, store: Store, doc: Body, fuel: nat,
                                       source: string -> Option<string>)
    requires Agrees(cfg, net, store, source)
    ensures Build(cfg, net, parse, store, doc, fuel).0 == PureBuild(source, parse, doc, fuel)
    ensures Agrees(cfg, net, Build(cfg, net, parse, store, doc, fuel).1, source)
    decreases fuel, 1, 0, 0
  {
    var result := Build(cfg, net, parse, store, doc, fuel);
    if Count(doc, PlaceholderSelector) == 0 || fuel == 0 {
      assert result.1 == store;
    } else {
      var names := FileNames(doc);
      var leaf := Node(doc, []);
      var bc := BuildChildren(cfg, net, parse, store, names, leaf, fuel - 1);
      assert result == bc;
      BuildChildrenIsPure(cfg, net, parse, store, names, leaf, fuel - 1, source);
      assert Agrees(cfg, net, bc.1, source);
      var pc := PureChildren(source, parse, Texts(source, names), fuel - 1);
      var pure := PureBuild(source, parse, doc, fuel);
      assert pure == if pc.None? then None else Some(Node(doc, pc.value));
      if pc.Some? {
        assert leaf.children + pc.value == pc.value;
        assert bc.0 == pure;
      } else {
        assert bc.0 == pure;
      }
    }
  }

  /** One turn of the loop over the names, unfolded. */
  lemma BuildChildrenStep(cfg: Config, net: Network, parse: Parser, store: Store, names: seq<string>, node: Node, fuel: nat)
    requires names != []
    ensures var (data, store1) := Fetch(cfg, net, store, names[0]);
      BuildChildren(cfg, net, parse, store, names, node, fuel) ==
        if data.Some? && data.value != "" then
          var (child, store2) := Build(cfg, net, parse, store1, parse(data.value), fuel);
          if child.None? then (None, store2)
          else BuildChildren(cfg, net, parse, store2, names[1..], node.Add(child.value), fuel)
        else BuildChildren(cfg, net, parse, store1, names[1..], node, fuel)
  {
  }

  lemma {:induction false} BuildChildrenIsPure(cfg: Config, net: Network, parse: Parser, store: Store, names: seq<string>,
                                               node: Node, fuel: nat, source: string -> Option<string>)
    requires Agrees(cfg, net, store, source)
    ensures Agrees(cfg, net, BuildChildren(cfg, net, parse, store, names, node, fuel).1, source)
    ensures var pc := PureChildren(source, parse, Texts(source, names), fuel);
      BuildChildren(cfg, net, parse, store, names, node, fuel).0 ==
        if pc.None? then None else Some(Node(node.data, node.children + pc.value))
    decreases fuel, 2, |names|, 1
  {
    if names == [] {
      assert node.children + [] == node.children;
    } else {
      FetchEffective(cfg, net, store, names[0]);
      var data := Fetch(cfg, net, store, names[0]).0;
      if data.Some? && data.value != "" {
        BuildChildrenAddIsPure(cfg, net, parse, store, names, node, fuel, source);
      } else {
        BuildChildrenSkipIsPure(cfg, net, parse, store, names, node, fuel, source);
      }
    }
  }

  /** A name whose text is absent or empty adds no child. */
  lemma {:induction false} BuildChildrenSkipIsPure(cfg: Config, net: Network, parse: Parser, store: Store, names: seq<string>,
                                                   node: Node, fuel: nat, source: string -> Option<string>)
    requires Agrees(cfg, net, store, source)
    requires names != []
    requires var data := Fetch(cfg, net, store, names[0]).0; !(data.Some? && data.value != "")
    ensures Agrees(cfg, net, BuildChildren(cfg, net, parse, store, names, node, fuel).1, source)
    ensures var pc := PureChildren(source, parse, Texts(source, names), fuel);
      BuildChildren(cfg, net, parse, store, names, node, fuel).0 ==
        if pc.None? then None else Some(Node(node.data, node.children + pc.value))
    decreases fuel, 2, |names|, 0
  {
    var name, rest := names[0], names[1..];
    BuildChildrenStep(cfg, net, parse, store, names, node, fuel);
    assert names == [name] + rest;
    TextsCons(source, name, rest);
    FetchEffective(cfg, net, store, name);
    var store1 := Fetch(cfg, net, store, name).1;
    assert Texts(source, names) == Texts(source, rest);
    BuildChildrenIsPure(cfg, net, parse, store1, rest, node, fuel, source);
  }

  /** A name with a non-empty text adds the tree of that text, when it can be built. */
  lemma {:induction false} BuildChildrenAddIsPure(cfg: Config, net: Network, parse: Parser, store: Store, names: seq<string>,
                                                  node: Node, fuel: nat, source: string -> Option<string>)
    requires Agrees(cfg, net, store, source)
    requires names != []
    requires var data := Fetch(cfg, net, store, names[0]).0; data.Some? && data.value != ""
    ensures Agrees(cfg, net, BuildChildren(cfg, net, parse, store, names, node, fuel).1, source)
    ensures var pc := PureChildren(source, parse, Texts(source, names), fuel);
      BuildChildren(cfg, net, parse, store, names, node, fuel).0 ==
        if pc.None? then None else Some(Node(node.data, node.children + pc.value))
    decreases fuel, 2, |names|, 0
  {
    var name, rest := names[0], names[1..];
    var result := BuildChildren(cfg, net, parse, store, names, node, fuel);
    BuildChildrenStep(cfg, net, parse, store, names, node, fuel);
    TextsCons(source, name, rest);
    assert names == [name] + rest;
    FetchEffective(cfg, net, store, name);
    var fetched := Fetch(cfg, net, store, name);
    var data, store1 := fetched.0, fetched.1;
    BuildIsPure(cfg, net, parse, store1, parse(data.value), fuel, source);
    var built := Build(cfg, net, parse, store1, parse(data.value), fuel);
    var texts := Texts(source, names);
    assert texts[0] == data.value && texts[1..] == Texts(source, rest);
    if built.0.None? {
      assert result == (None, built.1);
    } else {
      assert result == BuildChildren(cfg, net, parse, built.1, rest, node.Add(built.0.value), fuel);
      BuildChildrenAddedIsPure(cfg, net, parse, built.1, texts, rest, node, built.0.value, fuel, source);
    }
  }

  /** The rest of the loop after a child was added. */
  lemma {:induction false} BuildChildrenAddedIsPure(cfg: Config, net: Network, parse: Parser, store: Store,
                                                    texts: seq<string>, rest: seq<string>, node: Node, child: Node,
                                                    fuel: nat, source: string -> Option<string>)
    requires Agrees(cfg, net, store, source)
    requires texts != [] && texts[1..] == Texts(source, rest)
    requires PureBuild(source, parse, parse(texts[0]), fuel) == Some(child)
    ensures Agrees(cfg, net, BuildChildren(cfg, net, parse, store, rest, node.Add(child), fuel).1, source)
    ensures var pc := PureChildren(source, parse, texts, fuel);
      BuildChildren(cfg, net, parse, store, rest, node.Add(child), fuel).0 ==
        if pc.None? then None else Some(Node(node.data, node.children + pc.value))
    decreases fuel, 2, |rest|, 2
  {
    BuildChildrenIsPure(cfg, net, parse, store, rest, node.Add(child), fuel, source);
    PureChildrenCons(source, parse, texts, child, fuel);
    AddedChildren(node, child, PureChildren(source, parse, texts[1..], fuel), PureChildren(source, parse, texts, fuel),
                  BuildChildren(cfg, net, parse, store, rest, node.Add(child), fuel).0);
  }

  lemma AddedChildren(node: Node, child: Node, later: Option<seq<Node>>, all: Option<seq<Node>>, r: Option<Node>)
    requires all == if later.None? then None else Some([child] + later.value)
    requires r == if later.None? then None else Some(Node(node.data, node.Add(child).children + later.value))
    ensures r == if all.None? then None else Some(Node(node.data, node.children + all.value))
  {
    if later.Some? {
      assert node.Add(child).children + later.value == node.children + ([child] + later.value);
    }
  }

  /** The trees of texts whose first one builds to `child`. */
  lemma PureChildrenCons(source: string -> Option<string>, parse: Parser, texts: seq<string>, child: Node, fuel: nat)
    requires texts != [] && PureBuild(source, parse, parse(texts[0]), fuel) == Some(child)
    ensures var pcr := PureChildren(source, parse, texts[1..], fuel);
      PureChildren(source, parse, texts, fuel) == if pcr.None? then None else Some([child] + pcr.value)
  {
  }

  /** A document without placeholders is a leaf, whatever the store and the network hold. */
  lemma BuildLeaf(cfg: Config, net: Network, parse: Parser, store: Store, doc: Body, fuel: nat)
    requires Count(doc, PlaceholderSelector) == 0
    ensures Build(cfg, net, parse, store, doc, fuel) == (Some(Node(doc, [])), store)
  {
  }

  /** A body made of placeholders gets the trees of its names' non-empty texts as children. */
  lemma PureBuildPlaceholders(source: string -> Option<string>, parse: Parser, names: seq<string>, fuel: nat)
    requires |names| > 0 && fuel >= 1
    requires forall k :: 0 <= k < |names| ==> LineFree(names[k])
    ensures var pc := PureChildren(source, parse, Texts(source, names), fuel - 1);
      PureBuild(source, parse, Placeholders(names), fuel) ==
        if pc.None? then None else Some(Node(Placeholders(names), pc.value))
  {
    var body := Placeholders(names);
    SelectAll(body, PlaceholderSelector);
    FileNamesOfPlaceholders(names);
  }

  /** A body of placeholders whose non-empty texts build to `cs`, one tree per text. */
  lemma PureBuildFromTexts(source: string -> Option<string>, parse: Parser, names: seq<string>, cs: seq<Node>, fuel: nat)
    requires |names| > 0 && fuel >= 1
    requires forall k :: 0 <= k < |names| ==> LineFree(names[k])
    requires |cs| == |Texts(source, names)|
    requires forall k :: 0 <= k < |cs| ==> PureBuild(source, parse, parse(Texts(source, names)[k]), fuel - 1) == Some(cs[k])
    ensures PureBuild(source, parse, Placeholders(names), fuel) == Some(Node(Placeholders(names), cs))
  {
    PureBuildPlaceholders(source, parse, names, fuel);
    PureChildrenOfBuilt(source, parse, Texts(source, names), cs, fuel - 1);
  }

  /** One placeholder whose text builds to `child`. */
  lemma PureBuildSingle(source: string -> Option<string>, parse: Parser, name: string, text: string, child: Node, fuel: nat)
    requires fuel >= 1 && LineFree(name)
    requires source(name) == Some(text) && text != ""
    requires PureBuild(source, parse, parse(text), fuel - 1) == Some(child)
    ensures PureBuild(source, parse, Placeholders([name]), fuel) == Some(Node(Placeholders([name]), [child]))
  {
    assert Texts(source, [name]) == [text];
    PureBuildFromTexts(source, parse, [name], [child], fuel);
  }

  /** A document of `count` placeholders for one name whose text builds to `child`. */
  lemma PureBuildRepeated(source: string -> Option<string>, parse: Parser, name: string, text: string, child: Node,
                          count: nat, fuel: nat)
    requires fuel >= 1 && count >= 1 && LineFree(name)
    requires source(name) == Some(text) && text != ""
    requires PureBuild(source, parse, parse(text), fuel - 1) == Some(child)
    ensures var doc := Placeholders(seq(count, _ => name));
      PureBuild(source, parse, doc, fuel) == Some(Node(doc, seq(count, _ => child)))
  {
    TextsRepeated(source, name, text, count);
    PureBuildFromTexts(source, parse, seq(count, _ => name), seq(count, _ => child), fuel);
  }

  lemma {:induction false} TextsRepeated(source: string -> Option<string>, name: string, text: string, count: nat)
    requires source(name) == Some(text) && text != ""
    ensures Texts(source, seq(count, _ => name)) == seq(count, _ => text)
  {
    if count > 0 {
      TextsRepeated(source, name, text, count - 1);
      assert seq(count, _ => name)[1..] == seq(count - 1, _ => name);
      assert seq(count, _ => text) == [text] + seq(count - 1, _ => text);
    }
  }

  /**
   * Three `header.html` placeholders, where the header holds two
   * `footer.html` placeholders: three children with two children each.
   */
  lemma BuildFanOut(source: string -> Option<string>, parse: Parser, header: string, footer: string, fuel: nat)
    requires fuel >= 2
    requires source("header.html") == Some(header) && header != ""
    requires parse(header) == Placeholders(seq(2, _ => "footer.html"))
    requires source("footer.html") == Some(footer) && footer != ""
    requires Count(parse(footer), PlaceholderSelector) == 0
    ensures var leaf := Node(parse(footer), []);
      var mid := Node(parse(header), seq(2, _ => leaf));
      var root := Placeholders(seq(3, _ => "header.html"));
      PureBuild(source, parse, root, fuel) == Some(Node(root, seq(3, _ => mid)))
  {
    var leaf := Node(parse(footer), []);
    assert LineFree("footer.html") && LineFree("header.html");
    PureBuildRepeated(source, parse, "footer.html", footer, leaf, 2, fuel - 1);
    var mid := Node(parse(header), seq(2, _ => leaf));
    PureBuildRepeated(source, parse, "header.html", header, mid, 3, fuel);
  }

  /** The chain header, bread, footer: the footer's tree sits three levels down. */
  lemma BuildChain(source: string -> Option<string>, parse: Parser, header: string, bread: string, footer: string, fuel: nat)
    requires fuel >= 3
    requires source("header.html") == Some(header) && header != "" && parse(header) == Placeholders(["bread.html"])
    requires source("bread.html") == Some(bread) && bread != "" && parse(bread) == Placeholders(["footer.html"])
    requires source("footer.html") == Some(footer) && footer != "" && Count(parse(footer), PlaceholderSelector) == 0
    ensures PureBuild(source, parse, Placeholders(["header.html"]), fuel) ==
      Some(Node(Placeholders(["header.html"]), [Node(parse(header), [Node(parse(bread), [Node(parse(footer), [])])])]))
  {
    assert LineFree("footer.html") && LineFree("bread.html") && LineFree("header.html");
    var f := Node(parse(footer), []);
    PureBuildSingle(source, parse, "footer.html", footer, f, fuel - 2);
    var b := Node(parse(bread), [f]);
    PureBuildSingle(source, parse, "bread.html", bread, b, fuel - 1);
    var h := Node(parse(header), [b]);
    PureBuildSingle(source, parse, "header.html", header, h, fuel);
  }

  /**
   * The same chain served from the cache in production, as the test suite
   * sets it up: the tree does not depend on the network.
   */
  lemma BuildChainFromCache(cfg: Config, net: Network, parse: Parser, store: Store,
                            header: string, bread: string, footer: string, fuel: nat)
    requires cfg.mode == Production && fuel >= 3
    requires Get(store, "header.html") == Some(header) && parse(header) == Placeholders(["bread.html"])
    requires Get(store, "bread.html") == Some(bread) && parse(bread) == Placeholders(["footer.html"])
    requires Get(store, "footer.html") == Some(footer) && Count(parse(footer), PlaceholderSelector) == 0
    ensures Build(cfg, net, parse, store, Placeholders(["header.html"]), fuel).0 ==
      Some(Node(Placeholders(["header.html"]), [Node(parse(header), [Node(parse(bread), [Node(parse(footer), [])])])]))
  {
    var source := n => Effective(cfg, net, store, n);
    assert Agrees(cfg, net, store, source);
    assert source("header.html") == Some(header) && source("bread.html") == Some(bread) &&
           source("footer.html") == Some(footer);
    BuildIsPure(cfg, net, parse, store, Placeholders(["header.html"]), fuel, source);
    BuildChain(source, parse, header, bread, footer, fuel);
  }
}
