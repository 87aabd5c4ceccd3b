/**
 * The document model.  A parsed document's body is a flat sequence of
 * items: a run of text, or an element with its tag, `id`, class list and
 * inner HTML.  An element is identified by its position in the body.  Only
 * the items of the body itself are searched by a selector: an element inside
 * another element's inner HTML is text of that element here, whereas
 * `querySelectorAll` would find it at any depth.
 */
module Dom {

  datatype Item =
    | Text(text: string)
    | Elem(tag: string, id: string, classes: seq<string>, inner: string)

  type Body = seq<Item>

  /** The two CSS selector forms the engine uses: `[id^=p]` and `.c`. */
  datatype Selector = IdStartsWith(prefix: string) | HasClass(name: string)

  /** `[id^=ijwt_]`, the default selector of `get_files_wanted`. */
  const PlaceholderSelector: Selector := IdStartsWith("ijwt_")
  /** `.ijwt_cache`, the selector of `cache_manager`. */
  const CacheSelector: Selector := HasClass("ijwt_cache")
  /** `.ijwt_remove`, the selector of `remove_tags`. */
  const RemoveSelector: Selector := HasClass("ijwt_remove")

  predicate StartsWith(s: string, p: string)
  {
    |p| <= |s| && s[..|p|] == p
  }

  /** Whether an item is selected; `[id^=""]` selects nothing, as in CSS. */
  predicate Matches(sel: Selector, it: Item)
  {
    it.Elem? &&
    match sel
    case IdStartsWith(p) => p != "" && StartsWith(it.id, p)
    case HasClass(c) => c in it.classes
  }

  predicate IsPlaceholder(it: Item)
  {
    Matches(PlaceholderSelector, it)
  }

  /**
   * `get_files_wanted` (source/ijwt.ts:137-147): the positions of the
   * selected elements in document order, every one of them and nothing else.
   */
  function GetFilesWanted(body: Body, sel: Selector): (r: seq<nat>)
    ensures forall k :: 0 <= k < |r| ==> r[k] < |body| && Matches(sel, body[r[k]])
    ensures forall k, l :: 0 <= k < l < |r| ==> r[k] < r[l]
  {
    if body == [] then []
    else
      var r := GetFilesWanted(body[..|body| - 1], sel);
      if Matches(sel, body[|body| - 1]) then r + [|body| - 1] else r
  }

  /**
   * Every selected element is found.  (Kept out of the contract of
   * `GetFilesWanted`: next to its first clause it would let the solver
   * generate positions without end.)
   */
  lemma {:induction false} GetFilesWantedComplete(body: Body, sel: Selector, j: nat)
    requires j < |body| && Matches(sel, body[j])
    ensures j in GetFilesWanted(body, sel)
    decreases |body|
  {
    if j < |body| - 1 {
      GetFilesWantedComplete(body[..|body| - 1], sel, j);
    }
  }

  /** The number of selected elements. */
  function Count(body: Body, sel: Selector): nat
  {
    |GetFilesWanted(body, sel)|
  }

  /** The position of the `k`-th selected element, or the end of the body when there is none. */
  function Cut(body: Body, sel: Selector, k: nat): (c: nat)
    ensures c <= |body|
  {
    var found := GetFilesWanted(body, sel);
    if k < |found| then found[k] else |body|
  }

  lemma CountSingle(it: Item, sel: Selector)
    ensures Count([it], sel) == if Matches(sel, it) then 1 else 0
  {
    assert [it][..0] == [];
    assert GetFilesWanted([it], sel) == if Matches(sel, it) then [0] else [];
  }

  /** Selection distributes over concatenation. */
  lemma {:induction false} CountAppend(a: Body, b: Body, sel: Selector)
    ensures Count(a + b, sel) == Count(a, sel) + Count(b, sel)
    decreases |b|
  {
    if b == [] {
      assert a + b == a;
    } else {
      var b' := b[..|b| - 1];
      CountAppend(a, b', sel);
      assert (a + b)[..|a + b| - 1] == a + b';
      assert (a + b)[|a + b| - 1] == b[|b| - 1];
    }
  }

  /**
   * Selecting in a prefix of the body yields a prefix of the selection, and
   * the rest of the selection lies at or after the prefix's end.
   */
  lemma {:induction false} SelectPrefix(body: Body, sel: Selector, n: nat)
    requires n <= |body|
    ensures var s := GetFilesWanted(body, sel); var p := GetFilesWanted(body[..n], sel);
      |p| <= |s| && p == s[..|p|] && forall k :: |p| <= k < |s| ==> s[k] >= n
    decreases |body| - n
  {
    if n < |body| {
      var b' := body[..|body| - 1];
      SelectPrefix(b', sel, n);
      assert b'[..n] == body[..n];
    } else {
      assert body[..n] == body;
    }
  }

  /** Exactly `k` selected elements come before the `k`-th one. */
  lemma CountBeforeCut(body: Body, sel: Selector, k: nat)
    requires k <= Count(body, sel)
    ensures Count(body[..Cut(body, sel, k)], sel) == k
  {
    var s := GetFilesWanted(body, sel);
    if k == |s| {
      assert body[..Cut(body, sel, k)] == body;
    } else {
      var c := s[k];
      assert Cut(body, sel, k) == c;
      SelectPrefix(body, sel, c);
      var p := GetFilesWanted(body[..c], sel);
      assert p == s[..|p|];
      forall j | 0 <= j < |p| ensures s[j] < c {
        assert s[j] == p[j];
      }
      var first := if |p| < |s| then s[|p|] else c;
      assert first >= c;
      if k < |p| { assert false; }
      if |p| < k { assert false; }
    }
  }

  /**
   * The `k`-th selected element is selected, sits before the next cut, and
   * nothing between it and the next cut is selected.
   */
  lemma CutSegment(body: Body, sel: Selector, k: nat)
    requires k < Count(body, sel)
    ensures Cut(body, sel, k) < Cut(body, sel, k + 1)
    ensures Matches(sel, body[Cut(body, sel, k)])
    ensures Count(body[Cut(body, sel, k) + 1..Cut(body, sel, k + 1)], sel) == 0
  {
    var c, c' := Cut(body, sel, k), Cut(body, sel, k + 1);
    CountBeforeCut(body, sel, k);
    CountBeforeCut(body, sel, k + 1);
    assert body[..c'] == body[..c] + [body[c]] + body[c + 1..c'];
    CountAround(body[..c], body[c], body[c + 1..c'], sel);
  }

  lemma CountAround(pre: Body, it: Item, post: Body, sel: Selector)
    ensures Count(pre + [it] + post, sel) == Count(pre, sel) + (if Matches(sel, it) then 1 else 0) + Count(post, sel)
  {
    CountAppend(pre + [it], post, sel);
    CountAppend(pre, [it], sel);
    CountSingle(it, sel);
  }

  /** Selection only looks at which items match: bodies that agree on that select alike. */
  lemma {:induction false} SelectSameShape(a: Body, b: Body, sel: Selector)
    requires |a| == |b|
    requires forall i :: 0 <= i < |a| ==> Matches(sel, a[i]) == Matches(sel, b[i])
    ensures GetFilesWanted(a, sel) == GetFilesWanted(b, sel)
    decreases |a|
  {
    if a != [] {
      SelectSameShape(a[..|a| - 1], b[..|b| - 1], sel);
    }
  }
}
