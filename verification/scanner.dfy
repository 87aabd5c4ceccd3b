/**
 * File-name extraction from placeholder elements (`extract_file_names`,
 * source/ijwt.ts:149-158): every match of the global expression
 * `/ijwt_(?<file_name>.*)/gm` in an element's `id` contributes its group.
 * In a JavaScript regular expression `.` stops at a line terminator, and a
 * global `matchAll` resumes its search where the previous match ended.
 */
module Scanner {
  import opened Dom

  /** The characters `.` does not match without the `s` flag. */
  predicate IsLineTerminator(c: char)
  {
    c == '\n' || c == '\r' || c == '\U{2028}' || c == '\U{2029}'
  }

  predicate LineFree(s: string)
  {
    forall k :: 0 <= k < |s| ==> !IsLineTerminator(s[k])
  }

  /** Where a greedy `.*` starting at `i` stops: the next line terminator, or the end. */
  function LineEnd(s: string, i: nat): (e: nat)
    requires i <= |s|
    ensures i <= e <= |s|
    ensures forall k :: i <= k < e ==> !IsLineTerminator(s[k])
    ensures e < |s| ==> IsLineTerminator(s[e])
    decreases |s| - i
  {
    if i == |s| || IsLineTerminator(s[i]) then i else LineEnd(s, i + 1)
  }

  const IdPrefix: string := "ijwt_"

  /** The `file_name` groups of all matches found searching `id` from position `from`. */
  function IdMatches(id: string, from: nat): (names: seq<string>)
    requires from <= |id|
    decreases |id| - from
  {
    if from + |IdPrefix| > |id| then []
    else if id[from..from + |IdPrefix|] == IdPrefix then
      var e := LineEnd(id, from + |IdPrefix|);
      [id[from + |IdPrefix|..e]] + IdMatches(id, e)
    else IdMatches(id, from + 1)
  }

  /**
   * `extract_file_names`: the matches of every element, element after
   * element.  (A node list holds only elements; a text item, which never
   * occurs in one, contributes nothing.)
   */
  function ExtractFileNames(elements: seq<Item>): (names: seq<string>)
  {
    if elements == [] then []
    else (if elements[0].Elem? then IdMatches(elements[0].id, 0) else []) + ExtractFileNames(elements[1..])
  }

  /** The elements at the given positions, as the node list `querySelectorAll` returns. */
  function ElementsAt(body: Body, at: seq<nat>): (elements: seq<Item>)
    requires forall k :: 0 <= k < |at| ==> at[k] < |body|
    ensures |elements| == |at|
    ensures forall k :: 0 <= k < |at| ==> elements[k] == body[at[k]]
  {
    seq(|at|, k requires 0 <= k < |at| => body[at[k]])
  }

  /** The file names a document asks for, as `generate_node_tree` obtains them. */
  function FileNames(body: Body): seq<string>
  {
    var found := GetFilesWanted(body, PlaceholderSelector);
    ExtractFileNames(ElementsAt(body, found))
  }

  /** Every placeholder id of the body is free of line terminators. */
  predicate IdsLineFree(body: Body)
  {
    forall k :: 0 <= k < |body| && IsPlaceholder(body[k]) ==> LineFree(body[k].id)
  }

  /**
   * An id that starts with `ijwt_` yields at least one name, the first being
   * the id after the prefix up to the first line terminator; when the id holds
   * no line terminator that is the only name and it is the whole remainder.
   */
  lemma IdMatchesPlaceholder(id: string)
    requires StartsWith(id, IdPrefix)
    ensures var names := IdMatches(id, 0);
      |names| >= 1 && names[0] == id[|IdPrefix|..LineEnd(id, |IdPrefix|)]
    ensures LineFree(id) ==> IdMatches(id, 0) == [id[|IdPrefix|..]]
  {
    var e := LineEnd(id, |IdPrefix|);
    assert id[0..|IdPrefix|] == IdPrefix;
    if LineFree(id) {
      assert e == |id|;
      assert IdMatches(id, 0) == [id[|IdPrefix|..e]] + IdMatches(id, e);
      assert IdMatches(id, e) == [];
      assert id[|IdPrefix|..e] == id[|IdPrefix|..];
    }
  }

  /**
   * For placeholder elements whose ids hold no line terminator, the names are
   * exactly one per element, in element order, each the id without `ijwt_`.
   */
  lemma {:induction false} ExtractExact(elements: seq<Item>)
    requires forall k :: 0 <= k < |elements| ==> IsPlaceholder(elements[k])
    requires forall k :: 0 <= k < |elements| ==> elements[k].Elem? && LineFree(elements[k].id)
    ensures var names := ExtractFileNames(elements);
      |names| == |elements| &&
      forall k :: 0 <= k < |elements| ==>
        elements[k].Elem? && |IdPrefix| <= |elements[k].id| && names[k] == elements[k].id[|IdPrefix|..]
  {
    if elements != [] {
      IdMatchesPlaceholder(elements[0].id);
      ExtractExact(elements[1..]);
    }
  }

  /** Each placeholder element contributes at least one name. */
  lemma {:induction false} ExtractAtLeastOne(elements: seq<Item>)
    requires forall k :: 0 <= k < |elements| ==> IsPlaceholder(elements[k])
    ensures |ExtractFileNames(elements)| >= |elements|
  {
    if elements != [] {
      IdMatchesPlaceholder(elements[0].id);
      ExtractAtLeastOne(elements[1..]);
    }
  }

  /**
   * The names a body asks for: one per placeholder, in document order, each
   * its id without the `ijwt_` prefix (ids free of line terminators).
   */
  lemma FileNamesExact(body: Body)
    requires IdsLineFree(body)
    ensures var found := GetFilesWanted(body, PlaceholderSelector);
      |FileNames(body)| == |found| &&
      forall k :: 0 <= k < |found| ==>
        body[found[k]].Elem? && |IdPrefix| <= |body[found[k]].id| &&
        FileNames(body)[k] == body[found[k]].id[|IdPrefix|..]
  {
    var found := GetFilesWanted(body, PlaceholderSelector);
    ExtractExact(ElementsAt(body, found));
  }

  /** A body without placeholders asks for no file. */
  lemma FileNamesNone(body: Body)
    requires Count(body, PlaceholderSelector) == 0
    ensures FileNames(body) == []
  {
  }

  /** A `<div id="ijwt_NAME"></div>` placeholder asking for `name`. */
  function PlaceholderFor(name: string): (it: Item)
    ensures IsPlaceholder(it)
  {
    assert (IdPrefix + name)[..|IdPrefix|] == IdPrefix;
    Elem("div", IdPrefix + name, [], "")
  }

  /** A body made of one placeholder per name, in order. */
  function Placeholders(names: seq<string>): (body: Body)
    ensures |body| == |names|
    ensures forall k :: 0 <= k < |names| ==> body[k] == PlaceholderFor(names[k])
  {
    seq(|names|, k requires 0 <= k < |names| => PlaceholderFor(names[k]))
  }

  /** When every item is selected, the selection is every position. */
  lemma {:induction false} SelectAll(body: Body, sel: Selector)
    requires forall k :: 0 <= k < |body| ==> Matches(sel, body[k])
    ensures GetFilesWanted(body, sel) == seq(|body|, k requires 0 <= k < |body| => k)
    decreases |body|
  {
    if body != [] {
      SelectAll(body[..|body| - 1], sel);
    }
  }

  /** Scanning a body of placeholders gives back the names they were made from. */
  lemma FileNamesOfPlaceholders(names: seq<string>)
    requires forall k :: 0 <= k < |names| ==> LineFree(names[k])
    ensures FileNames(Placeholders(names)) == names
  {
    var body := Placeholders(names);
    SelectAll(body, PlaceholderSelector);
    assert IdsLineFree(body) by {
      forall k | 0 <= k < |body| && IsPlaceholder(body[k])
        ensures LineFree(body[k].id)
      {
        assert body[k].id == IdPrefix + names[k];
      }
    }
    FileNamesExact(body);
    forall k | 0 <= k < |names|
      ensures FileNames(body)[k] == names[k]
    {
      assert body[k].id[|IdPrefix|..] == names[k];
    }
  }

  /** The body of the test suite's detection example. */
  predicate IsHeaderFooterBody(body: Body)
  {
    body == [Elem("div", "ijwt_header.html", [], ""), Elem("div", "ijwt_footer.html", [], "")]
  }

  lemma HeaderFooterFound(body: Body)
    requires IsHeaderFooterBody(body)
    ensures GetFilesWanted(body, PlaceholderSelector) == [0, 1]
  {
    var header, footer := body[0].id, body[1].id;
    assert header[..5] == "ijwt_" && footer[..5] == "ijwt_";
    assert IsPlaceholder(body[0]) && IsPlaceholder(body[1]);
    assert body[..1][..0] == [] && body[..1] == [body[0]];
    assert GetFilesWanted(body[..1], PlaceholderSelector) == [0];
  }

  lemma HeaderFooterLineFree(body: Body)
    requires IsHeaderFooterBody(body)
    ensures IdsLineFree(body)
  {
    var header, footer := body[0].id, body[1].id;
    assert header == IdPrefix + "header.html" && footer == IdPrefix + "footer.html";
    LineFreeAppend(IdPrefix, "header.html");
    LineFreeAppend(IdPrefix, "footer.html");
  }

  /** A string of printable ASCII characters holds no line terminator. */
  lemma PrintableLineFree(s: string)
    requires forall k :: 0 <= k < |s| ==> ' ' <= s[k] <= '~'
    ensures LineFree(s)
  {
  }

  lemma LineFreeAppend(a: string, b: string)
    requires forall k :: 0 <= k < |a| ==> ' ' <= a[k] <= '~'
    requires forall k :: 0 <= k < |b| ==> ' ' <= b[k] <= '~'
    ensures LineFree(a + b)
  {
    PrintableLineFree(a + b);
  }

  /** The example of the test suite: `ijwt_header.html` then `ijwt_footer.html`. */
  lemma FileNamesExample(body: Body)
    requires IsHeaderFooterBody(body)
    ensures FileNames(body) == ["header.html", "footer.html"]
  {
    HeaderFooterFound(body);
    HeaderFooterLineFree(body);
    FileNamesExact(body);
    assert body[0].id[5..] == "header.html" && body[1].id[5..] == "footer.html";
  }
}
