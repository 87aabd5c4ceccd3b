/**
 * What `collapse_node_tree` (source/ijwt.ts:187-199) computes: the body of
 * a node with the collapsed bodies of its children spliced in place of its
 * placeholder elements.  The loop is a `for ... in` over `node.children`
 * whose body calls `node.children.shift()`; a key removed before it is
 * reached is skipped, so of `n` children only the first ceil(n/2) are
 * visited, and child `k` goes to placeholder `k`.
 */
module Collapser {
  import opened Wrappers
  import opened Dom
  import opened Scanner
  import opened Tree

  /**
   * The body with its first `|reps|` placeholders replaced, in document
   * order, by the bodies in `reps`; every other item is kept as it is.
   */
  function Substitute(body: Body, reps: seq<Body>): Body
  {
    if body == [] then []
    else if reps != [] && IsPlaceholder(body[0]) then reps[0] + Substitute(body[1..], reps[1..])
    else [body[0]] + Substitute(body[1..], reps)
  }

  lemma CountCons(it: Item, rest: Body)
    ensures Count([it] + rest, PlaceholderSelector) == (if IsPlaceholder(it) then 1 else 0) + Count(rest, PlaceholderSelector)
  {
    CountAppend([it], rest, PlaceholderSelector);
    CountSingle(it, PlaceholderSelector);
  }

  /** With nothing to put in, the body is left as it is. */
  lemma {:induction false} SubstituteNothing(body: Body)
    ensures Substitute(body, []) == body
  {
    if body != [] {
      SubstituteNothing(body[1..]);
    }
  }

  /** Substitution works piece by piece, the first piece taking as many bodies as it has placeholders. */
  lemma {:induction false} SubstituteAppend(a: Body, b: Body, r1: seq<Body>, r2: seq<Body>)
    requires Count(a, PlaceholderSelector) == |r1|
    ensures Substitute(a + b, r1 + r2) == Substitute(a, r1) + Substitute(b, r2)
    decreases |a|
  {
    if a == [] {
      assert a + b == b && r1 + r2 == r2;
    } else {
      var it, rest := a[0], a[1..];
      assert a == [it] + rest;
      CountCons(it, rest);
      assert (a + b)[0] == it && (a + b)[1..] == rest + b;
      if IsPlaceholder(it) {
        assert (r1 + r2)[0] == r1[0] && (r1 + r2)[1..] == r1[1..] + r2;
        calc {
          Substitute(a + b, r1 + r2);
          r1[0] + Substitute(rest + b, r1[1..] + r2);
          { SubstituteAppend(rest, b, r1[1..], r2); }
          r1[0] + (Substitute(rest, r1[1..]) + Substitute(b, r2));
          (r1[0] + Substitute(rest, r1[1..])) + Substitute(b, r2);
          Substitute(a, r1) + Substitute(b, r2);
        }
      } else {
        calc {
          Substitute(a + b, r1 + r2);
          [it] + Substitute(rest + b, r1 + r2);
          { SubstituteAppend(rest, b, r1, r2); }
          [it] + (Substitute(rest, r1) + Substitute(b, r2));
          ([it] + Substitute(rest, r1)) + Substitute(b, r2);
          Substitute(a, r1) + Substitute(b, r2);
        }
      }
    }
  }

  /** Past the placeholders that receive bodies, the body is kept verbatim. */
  lemma SubstituteRest(a: Body, b: Body, reps: seq<Body>)
    requires Count(a, PlaceholderSelector) == |reps|
    ensures Substitute(a + b, reps) == Substitute(a, reps) + b
  {
    assert reps + [] == reps;
    SubstituteAppend(a, b, reps, []);
    SubstituteNothing(b);
  }

  lemma SubstituteSplit(body: Body, reps: seq<Body>, c: nat)
    requires c <= |body| && Count(body[..c], PlaceholderSelector) == |reps|
    ensures Substitute(body, reps) == Substitute(body[..c], reps) + body[c..]
  {
    var a, b := body[..c], body[c..];
    assert a + b == body;
    calc {
      Substitute(body, reps);
      Substitute(a + b, reps);
      { SubstituteRest(a, b, reps); }
      Substitute(a, reps) + b;
    }
  }

  lemma SubstituteTail(body: Body, reps: seq<Body>)
    requires |reps| <= Count(body, PlaceholderSelector)
    ensures var c := Cut(body, PlaceholderSelector, |reps|);
      Substitute(body, reps) == Substitute(body[..c], reps) + body[c..]
  {
    CountBeforeCut(body, PlaceholderSelector, |reps|);
    SubstituteSplit(body, reps, Cut(body, PlaceholderSelector, |reps|));
  }

  /** Before any body is spliced in, the partly substituted body is the body. */
  lemma SubstituteStart(body: Body)
    ensures var c := Cut(body, PlaceholderSelector, 0); Substitute(body[..c], []) + body[c..] == body
  {
    SubstituteNothing(body[..Cut(body, PlaceholderSelector, 0)]);
  }

  /** A placeholder at the front takes the first body. */
  lemma SubstituteHead(it: Item, rest: Body, b: Body, reps: seq<Body>)
    requires IsPlaceholder(it)
    ensures Substitute([it] + rest, [b] + reps) == b + Substitute(rest, reps)
  {
    assert ([it] + rest)[1..] == rest && ([b] + reps)[1..] == reps;
  }

  /**
   * Placeholder `k` is replaced by `reps[k]`: what comes before it is the
   * substitution of the earlier placeholders, and what follows it that of
   * the later ones.
   */
  lemma SubstituteAt(body: Body, reps: seq<Body>, k: nat)
    requires k < |reps| <= Count(body, PlaceholderSelector)
    ensures var c := Cut(body, PlaceholderSelector, k);
      Substitute(body, reps) == Substitute(body[..c], reps[..k]) + reps[k] + Substitute(body[c + 1..], reps[k + 1..])
  {
    CountBeforeCut(body, PlaceholderSelector, k);
    CutSegment(body, PlaceholderSelector, k);
    SubstituteAtPosition(body, reps, Cut(body, PlaceholderSelector, k), k);
  }

  lemma SubstituteAtPosition(body: Body, reps: seq<Body>, c: nat, k: nat)
    requires c < |body| && k < |reps| && Count(body[..c], PlaceholderSelector) == k && IsPlaceholder(body[c])
    ensures Substitute(body, reps) == Substitute(body[..c], reps[..k]) + reps[k] + Substitute(body[c + 1..], reps[k + 1..])
  {
    calc {
      Substitute(body, reps);
      { assert body == body[..c] + body[c..] && reps == reps[..k] + reps[k..]; }
      Substitute(body[..c] + body[c..], reps[..k] + reps[k..]);
      { SubstituteAppend(body[..c], body[c..], reps[..k], reps[k..]); }
      Substitute(body[..c], reps[..k]) + Substitute(body[c..], reps[k..]);
      { assert body[c..] == [body[c]] + body[c + 1..] && reps[k..] == [reps[k]] + reps[k + 1..];
        SubstituteHead(body[c], body[c + 1..], reps[k], reps[k + 1..]); }
      Substitute(body[..c], reps[..k]) + (reps[k] + Substitute(body[c + 1..], reps[k + 1..]));
    }
  }

  lemma SpliceAtPosition(body: Body, reps: seq<Body>, b: Body, c: nat, c': nat)
    requires c < c' <= |body|
    requires Count(body[..c], PlaceholderSelector) == |reps| && IsPlaceholder(body[c])
    ensures var pre := Substitute(body[..c], reps);
      var data := pre + body[c..];
      |pre| < |data| && IsPlaceholder(data[|pre|]) &&
      data[..|pre|] + b + data[|pre| + 1..] == Substitute(body[..c'], reps + [b]) + body[c'..] &&
      |Substitute(body[..c'], reps + [b])| == |pre| + |b| + (c' - c - 1)
  {
    var pre := Substitute(body[..c], reps);
    var data := pre + body[c..];
    var seg := body[c + 1..c'];
    calc {
      Substitute(body[..c'], reps + [b]);
      { assert body[..c'] == body[..c] + body[c..c'];
        SubstituteAppend(body[..c], body[c..c'], reps, [b]); }
      pre + Substitute(body[c..c'], [b]);
      { assert body[c..c'] == [body[c]] + seg && [b] == [b] + [];
        SubstituteHead(body[c], seg, b, []);
        SubstituteNothing(seg); }
      pre + (b + seg);
    }
    assert data[..|pre|] == pre;
    assert data[|pre| + 1..] == body[c + 1..] == seg + body[c'..];
  }

  /**
   * One splice of the loop: the item at the next placeholder's position in
   * the partly substituted body is replaced by `b`.
   */
  lemma SpliceStep(body: Body, reps: seq<Body>, b: Body)
    requires |reps| < Count(body, PlaceholderSelector)
    ensures var v := |reps|;
      var c, c' := Cut(body, PlaceholderSelector, v), Cut(body, PlaceholderSelector, v + 1);
      var pre := Substitute(body[..c], reps);
      var data := pre + body[c..];
      c < c' && |pre| < |data| && IsPlaceholder(data[|pre|]) &&
      data[..|pre|] + b + data[|pre| + 1..] == Substitute(body[..c'], reps + [b]) + body[c'..] &&
      |Substitute(body[..c'], reps + [b])| == |pre| + |b| + (c' - c - 1)
  {
    CountBeforeCut(body, PlaceholderSelector, |reps|);
    CutSegment(body, PlaceholderSelector, |reps|);
    SpliceAtPosition(body, reps, b, Cut(body, PlaceholderSelector, |reps|), Cut(body, PlaceholderSelector, |reps| + 1));
  }

  /**
   * The document part way through the loop: the first `|reps|` placeholders
   * replaced, the rest of the body as it was, and `shift` the distance the
   * replacements have moved what follows them.
   */
  predicate Spliced(body: Body, reps: seq<Body>, data: Body, shift: int)
  {
    |reps| <= Count(body, PlaceholderSelector) &&
    var c := Cut(body, PlaceholderSelector, |reps|);
    data == Substitute(body[..c], reps) + body[c..] && shift == |Substitute(body[..c], reps)| - c
  }

  lemma SplicedStart(body: Body)
    ensures Spliced(body, [], body, 0)
  {
    SubstituteStart(body);
  }

  /**
   * One splice keeps the document part way through: the next placeholder
   * sits at its original position plus `shift`, and replacing it by `b`
   * gives the document with one more body in.
   */
  lemma SplicedStep(body: Body, reps: seq<Body>, b: Body, data: Body, shift: int)
    requires Spliced(body, reps, data, shift) && |reps| < Count(body, PlaceholderSelector)
    ensures var at := Cut(body, PlaceholderSelector, |reps|) + shift;
      0 <= at < |data| && IsPlaceholder(data[at]) &&
      Spliced(body, reps + [b], data[..at] + b + data[at + 1..], shift + |b| - 1)
  {
    SpliceStep(body, reps, b);
  }

  /** Once every body is in, the document is the substitution. */
  lemma SplicedEnd(body: Body, reps: seq<Body>, data: Body, shift: int)
    requires Spliced(body, reps, data, shift)
    ensures data == Substitute(body, reps)
  {
    SubstituteTail(body, reps);
  }

  /** The number of placeholders in a sequence of bodies, all told. */
  function CountAll(reps: seq<Body>): nat
  {
    if reps == [] then 0 else Count(reps[0], PlaceholderSelector) + CountAll(reps[1..])
  }

  /**
   * Placeholders after substitution: those of the body that received no
   * body, plus those the inserted bodies bring.
   */
  lemma {:induction false} CountSubstitute(body: Body, reps: seq<Body>)
    requires |reps| <= Count(body, PlaceholderSelector)
    ensures Count(Substitute(body, reps), PlaceholderSelector) == Count(body, PlaceholderSelector) - |reps| + CountAll(reps)
  {
    if body != [] {
      assert body == [body[0]] + body[1..];
      CountCons(body[0], body[1..]);
      if reps != [] && IsPlaceholder(body[0]) {
        CountSubstitute(body[1..], reps[1..]);
        CountAppend(reps[0], Substitute(body[1..], reps[1..]), PlaceholderSelector);
      } else {
        CountSubstitute(body[1..], reps);
        CountCons(body[0], Substitute(body[1..], reps));
      }
    }
  }

  /** The number of children the `for ... in` loop reaches while it shifts them away. */
  function CeilHalf(n: nat): (h: nat)
    ensures n >= 1 ==> 1 <= h <= n
    ensures n - h <= h
  {
    (n + 1) / 2
  }

  /** The loop visits index `i` exactly when `i` is below the shrinking length. */
  lemma VisitedWhileBelowLength(n: nat, i: nat)
    ensures i < CeilHalf(n) <==> i < n - i
  {
  }

  /**
   * The state of the `for ... in` loop over `all` after the keys below
   * `index`: `visited` children have been shifted off, and the loop visits
   * keys while they are below the shrinking length.
   */
  predicate Shifted(all: seq<Node>, index: nat, children: seq<Node>, visited: nat)
  {
    |children| <= |all| && children == all[|all| - |children|..] && visited == |all| - |children| &&
    visited == if index < CeilHalf(|all|) then index else CeilHalf(|all|)
  }

  lemma ShiftedStart(all: seq<Node>)
    ensures Shifted(all, 0, all, 0)
  {
  }

  /** Key `index` is visited when it is below the length: the first child left is child `index`. */
  lemma ShiftedVisit(all: seq<Node>, index: nat, children: seq<Node>, visited: nat)
    requires Shifted(all, index, children, visited) && index < |children|
    ensures visited == index < CeilHalf(|all|) && children[0] == all[index]
    ensures Shifted(all, index + 1, children[1..], visited + 1)
  {
    VisitedWhileBelowLength(|all|, index);
  }

  /** A key at or past the length is skipped, as are all later ones. */
  lemma ShiftedSkip(all: seq<Node>, index: nat, children: seq<Node>, visited: nat)
    requires Shifted(all, index, children, visited) && index >= |children|
    ensures visited == CeilHalf(|all|) && Shifted(all, index + 1, children, visited)
  {
    VisitedWhileBelowLength(|all|, index);
  }

  lemma ShiftedEnd(all: seq<Node>, children: seq<Node>, visited: nat)
    requires Shifted(all, |all|, children, visited)
    ensures visited == CeilHalf(|all|) && children == all[CeilHalf(|all|)..]
  {
  }

  /**
   * How many children a collapse splices in: the first ceil(n/2) as the
   * loop is written (`full` false), or every child (`full` true), which is
   * what the shape of the tree calls for.
   */
  function Visited(n: nat, full: bool): (v: nat)
    ensures v <= n
  {
    if full then n else CeilHalf(n)
  }

  /**
   * `collapse_node_tree`.  A node without children is its own document.
   * Otherwise the first `Visited` children are collapsed and spliced into
   * the placeholders with the same positions; `None` when a visited
   * position has no placeholder (`elements[index]` is undefined and the
   * assignment throws) or when a child's collapse throws.
   */
  function Collapse(node: Node, full: bool): Option<Body>
    decreases node, 1
  {
    if node.children == [] then Some(node.data)
    else
      var visited := Visited(|node.children|, full);
      if Count(node.data, PlaceholderSelector) < visited then None
      else
        match CollapseChildren(node, full, visited)
        case None => None
        case Some(bodies) => Some(Substitute(node.data, bodies))
  }

  /** The collapsed bodies of the first `upto` children, when all of them collapse. */
  function CollapseChildren(node: Node, full: bool, upto: nat): (r: Option<seq<Body>>)
    requires upto <= |node.children|
    ensures r.Some? ==> |r.value| == upto
    decreases node, 0, upto
  {
    if upto == 0 then Some([])
    else
      match CollapseChildren(node, full, upto - 1)
      case None => None
      case Some(bodies) =>
        match Collapse(node.children[upto - 1], full)
        case None => None
        case Some(b) => Some(bodies + [b])
  }

  /** Once a child fails to collapse, so do all longer runs of children. */
  lemma {:induction false} CollapseChildrenFails(node: Node, full: bool, upto: nat, longer: nat)
    requires upto <= longer <= |node.children|
    requires CollapseChildren(node, full, upto).None?
    ensures CollapseChildren(node, full, longer).None?
    decreases longer
  {
    if longer > upto {
      CollapseChildrenFails(node, full, upto, longer - 1);
    }
  }

  lemma {:induction false} CountAllSnoc(reps: seq<Body>, b: Body)
    ensures CountAll(reps + [b]) == CountAll(reps) + Count(b, PlaceholderSelector)
    decreases |reps|
  {
    if reps == [] {
      assert [] + [b] == [b];
    } else {
      assert (reps + [b])[1..] == reps[1..] + [b];
      CountAllSnoc(reps[1..], b);
    }
  }

  /** Every node of the tree has exactly one child per placeholder. */
  predicate Complete(node: Node)
    decreases node
  {
    |node.children| == Count(node.data, PlaceholderSelector) &&
    forall k :: 0 <= k < |node.children| ==> Complete(node.children[k])
  }

  /**
   * When every child is spliced in, a complete tree collapses, and the
   * document it gives has no placeholder left.
   */
  lemma {:induction false} CollapseComplete(node: Node)
    requires Complete(node)
    ensures Collapse(node, true).Some?
    ensures Count(Collapse(node, true).value, PlaceholderSelector) == 0
    decreases node, 1
  {
    if node.children != [] {
      var n := |node.children|;
      CollapseChildrenComplete(node, n);
      CountSubstitute(node.data, CollapseChildren(node, true, n).value);
    }
  }

  lemma {:induction false} CollapseChildrenComplete(node: Node, upto: nat)
    requires Complete(node) && upto <= |node.children|
    ensures CollapseChildren(node, true, upto).Some?
    ensures CountAll(CollapseChildren(node, true, upto).value) == 0
    decreases node, 0, upto
  {
    if upto > 0 {
      CollapseChildrenComplete(node, upto - 1);
      var child := node.children[upto - 1];
      CollapseComplete(child);
      CountAllSnoc(CollapseChildren(node, true, upto - 1).value, Collapse(child, true).value);
    }
  }

  /**
   * As written, a node with one child per placeholder and at least two
   * children keeps at least floor(n/2) of its placeholders: the children the
   * loop never reaches are dropped.
   */
  lemma CollapseLeavesPlaceholders(node: Node)
    requires |node.children| >= 2 && |node.children| == Count(node.data, PlaceholderSelector)
    requires Collapse(node, false).Some?
    ensures Count(Collapse(node, false).value, PlaceholderSelector) >= |node.children| / 2 >= 1
  {
    var n := |node.children|;
    CountSubstitute(node.data, CollapseChildren(node, false, CeilHalf(n)).value);
  }

  /** A placeholder with one child is replaced by that child's collapsed body. */
  lemma CollapseSingle(name: string, child: Node, full: bool)
    ensures Collapse(Node(Placeholders([name]), [child]), full) == Collapse(child, full)
  {
    var node := Node(Placeholders([name]), [child]);
    SelectAll(node.data, PlaceholderSelector);
    assert Visited(1, full) == 1;
    assert node.children[0] == child;
    if Collapse(child, full).Some? {
      var b := Collapse(child, full).value;
      assert CollapseChildren(node, full, 1) == Some([] + [b]);
      assert [] + [b] == [b];
      assert node.data[1..] == [];
      assert Substitute(node.data, [b]) == b + Substitute([], []);
      assert b + [] == b;
    }
  }

  /** The test suite's chain header, bread, footer collapses to the footer's body. */
  lemma CollapseChain(footer: Body)
    ensures var leaf := Node(footer, []);
      var bread := Node(Placeholders(["footer.html"]), [leaf]);
      var header := Node(Placeholders(["bread.html"]), [bread]);
      Collapse(Node(Placeholders(["header.html"]), [header]), false) == Some(footer)
  {
    var leaf := Node(footer, []);
    var bread := Node(Placeholders(["footer.html"]), [leaf]);
    var header := Node(Placeholders(["bread.html"]), [bread]);
    CollapseSingle("footer.html", leaf, false);
    CollapseSingle("bread.html", bread, false);
    CollapseSingle("header.html", header, false);
  }

  /** An included file's body, inline scripts and all, is spliced in unchanged. */
  lemma CollapseKeepsContent(name: string, content: Body)
    ensures Collapse(Node(Placeholders([name]), [Node(content, [])]), false) == Some(content)
  {
    CollapseSingle(name, Node(content, []), false);
  }

  /**
   * Two placeholders with one leaf child each.  As written, only the first
   * child is spliced in and the second placeholder stays in the document;
   * splicing every child gives both bodies in order.
   */
  lemma CollapseTwoLeaves(x: string, y: string, a: Body, b: Body)
    ensures var node := Node(Placeholders([x, y]), [Node(a, []), Node(b, [])]);
      Collapse(node, false) == Some(a + [PlaceholderFor(y)]) &&
      Collapse(node, true) == Some(a + b)
  {
    var node := Node(Placeholders([x, y]), [Node(a, []), Node(b, [])]);
    var data := node.data;
    SelectAll(data, PlaceholderSelector);
    assert Count(data, PlaceholderSelector) == 2;
    assert data == [PlaceholderFor(x)] + [PlaceholderFor(y)];
    assert Visited(2, false) == 1;
    assert CollapseChildren(node, false, 1) == Some([] + [a]);
    assert node.children[0] == Node(a, []) && node.children[1] == Node(b, []);
    assert CollapseChildren(node, true, 1) == Some([] + [a]);
    assert CollapseChildren(node, true, 2) == Some([] + [a] + [b]);
    SubstituteHead(PlaceholderFor(x), [PlaceholderFor(y)], a, []);
    SubstituteNothing([PlaceholderFor(y)]);
    assert [] + [a] == [a] + [];
    SubstituteHead(PlaceholderFor(x), [PlaceholderFor(y)], a, [b]);
    SubstituteHead(PlaceholderFor(y), [], b, []);
    assert [] + [a] + [b] == [a] + [b];
    assert b + Substitute([], []) == b;
    assert [PlaceholderFor(y)] + [] == [PlaceholderFor(y)];
  }

  /** The document of the two-leaf example keeps an `ijwt_` placeholder as written. */
  lemma CollapseDropsSecondChild()
    ensures var node := Node(Placeholders(["a.html", "b.html"]), [Node([Text("A")], []), Node([Text("B")], [])]);
      Collapse(node, false) == Some([Text("A"), PlaceholderFor("b.html")]) &&
      Count(Collapse(node, false).value, PlaceholderSelector) == 1 &&
      Collapse(node, true) == Some([Text("A"), Text("B")])
  {
    CollapseTwoLeaves("a.html", "b.html", [Text("A")], [Text("B")]);
    assert [Text("A")] + [Text("B")] == [Text("A"), Text("B")];
    assert [Text("A")] + [PlaceholderFor("b.html")] == [Text("A"), PlaceholderFor("b.html")];
    CountAppend([Text("A")], [PlaceholderFor("b.html")], PlaceholderSelector);
    CountSingle(Text("A"), PlaceholderSelector);
    CountSingle(PlaceholderFor("b.html"), PlaceholderSelector);
  }

  /** One child for two placeholders goes to the first of them, whichever the count of visits. */
  lemma CollapseOneOfTwo(x: string, y: string, a: Body, full: bool)
    ensures Collapse(Node(Placeholders([x, y]), [Node(a, [])]), full) == Some(a + [PlaceholderFor(y)])
  {
    var node := Node(Placeholders([x, y]), [Node(a, [])]);
    SelectAll(node.data, PlaceholderSelector);
    assert Count(node.data, PlaceholderSelector) == 2;
    assert node.data == [PlaceholderFor(x)] + [PlaceholderFor(y)];
    assert Visited(1, full) == 1;
    assert node.children[0] == Node(a, []);
    assert CollapseChildren(node, full, 1) == Some([] + [a]);
    assert [] + [a] == [a] + [];
    SubstituteHead(PlaceholderFor(x), [PlaceholderFor(y)], a, []);
    SubstituteNothing([PlaceholderFor(y)]);
  }

  /**
   * A placeholder whose file is not found gets no child, so the next file's
   * body lands in its place and the next placeholder is left over: children
   * are not realigned with the placeholders they came from.
   */
  lemma CollapseAfterMissingFile(source: string -> Option<string>, parse: Parser, missing: string, found: string,
                                 text: string, fuel: nat, full: bool)
    requires fuel >= 1 && LineFree(missing) && LineFree(found)
    requires source(missing).None? || source(missing) == Some("")
    requires source(found) == Some(text) && text != "" && Count(parse(text), PlaceholderSelector) == 0
    ensures var root := Placeholders([missing, found]);
      var tree := Node(root, [Node(parse(text), [])]);
      PureBuild(source, parse, root, fuel) == Some(tree) &&
      Collapse(tree, full) == Some(parse(text) + [PlaceholderFor(found)])
  {
    assert Texts(source, [missing, found]) == [text] by {
      assert [missing, found][1..] == [found];
      assert Texts(source, [found]) == [text];
    }
    assert PureBuild(source, parse, parse(text), fuel - 1) == Some(Node(parse(text), []));
    PureBuildFromTexts(source, parse, [missing, found], [Node(parse(text), [])], fuel);
    CollapseOneOfTwo(missing, found, parse(text), full);
  }
}
