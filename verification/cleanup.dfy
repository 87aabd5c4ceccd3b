/**
 * The two clean-up passes over a document body: `cache_manager`
 * (source/ijwt.ts:224-246), which restores `.ijwt_cache` elements from the
 * cache or captures them into it, and `remove_tags` (source/ijwt.ts:248-252),
 * which deletes every `.ijwt_remove` element.
 */
module Cleanup {
  import opened Wrappers
  import opened Dom
  import opened Cache
  import opened Hash
  import opened Resolver

  /** The body without the selected items, the others kept in order. */
  function Remove(body: Body, sel: Selector): Body
  {
    if body == [] then []
    else
      var last := body[|body| - 1];
      Remove(body[..|body| - 1], sel) + (if Matches(sel, last) then [] else [last])
  }

  /** No selected item is left. */
  lemma {:induction false} RemoveNoneLeft(body: Body, sel: Selector)
    ensures forall k :: 0 <= k < |Remove(body, sel)| ==> !Matches(sel, Remove(body, sel)[k])
    decreases |body|
  {
    if body != [] {
      RemoveNoneLeft(body[..|body| - 1], sel);
    }
  }

  /** Exactly the selected items go. */
  lemma {:induction false} RemoveLength(body: Body, sel: Selector)
    ensures |Remove(body, sel)| == |body| - Count(body, sel)
    decreases |body|
  {
    if body != [] {
      RemoveLength(body[..|body| - 1], sel);
    }
  }

  /** A body in which no item is selected has a selection of none. */
  lemma {:induction false} CountNone(body: Body, sel: Selector)
    requires forall k :: 0 <= k < |body| ==> !Matches(sel, body[k])
    ensures Count(body, sel) == 0
    decreases |body|
  {
    if body != [] {
      CountNone(body[..|body| - 1], sel);
    }
  }

  lemma RemoveSingle(it: Item, sel: Selector)
    ensures Remove([it], sel) == if Matches(sel, it) then [] else [it]
  {
    assert [it][..0] == [];
  }

  /** Removal works piece by piece. */
  lemma {:induction false} RemoveAppend(a: Body, b: Body, sel: Selector)
    ensures Remove(a + b, sel) == Remove(a, sel) + Remove(b, sel)
    decreases |b|
  {
    if b == [] {
      assert a + b == a;
    } else {
      var b' := b[..|b| - 1];
      RemoveAppend(a, b', sel);
      assert (a + b)[..|a + b| - 1] == a + b';
      assert (a + b)[|a + b| - 1] == b[|b| - 1];
    }
  }

  /** A body with nothing selected is left as it is. */
  lemma {:induction false} RemoveNothing(body: Body, sel: Selector)
    requires Count(body, sel) == 0
    ensures Remove(body, sel) == body
    decreases |body|
  {
    if body != [] {
      var body' := body[..|body| - 1];
      assert Count(body', sel) == 0;
      RemoveNothing(body', sel);
      assert body == body' + [body[|body| - 1]];
    }
  }

  /** Removing twice removes nothing more. */
  lemma RemoveIdempotent(body: Body, sel: Selector)
    ensures Remove(Remove(body, sel), sel) == Remove(body, sel)
  {
    RemoveNoneLeft(body, sel);
    CountNone(Remove(body, sel), sel);
    RemoveNothing(Remove(body, sel), sel);
  }

  /** Removal around one selected item, the pieces given apart. */
  lemma RemoveAround(pre: Body, it: Item, seg: Body, post: Body, sel: Selector)
    requires Matches(sel, it) && Count(seg, sel) == 0
    ensures Remove(pre + [it] + seg, sel) == Remove(pre, sel) + seg
  {
    RemoveAppend(pre + [it], seg, sel);
    RemoveAppend(pre, [it], sel);
    RemoveSingle(it, sel);
    RemoveNothing(seg, sel);
  }

  /** `s` without its item at `i`, as `remove()` leaves the document. */
  function Without<T>(s: seq<T>, i: nat): (r: seq<T>)
    requires i < |s|
    ensures |r| == |s| - 1
  {
    s[..i] + s[i + 1..]
  }

  /** The body with its first `k` selected items removed. */
  function RemovedUpTo(body: Body, sel: Selector, k: nat): Body
  {
    var c := Cut(body, sel, k);
    Remove(body[..c], sel) + body[c..]
  }

  /**
   * One removal of the loop: in the body with the first `k` selected items
   * removed, the `k`-th sits `k` places before its original position, and
   * deleting it there removes it.
   */
  lemma RemoveStep(body: Body, sel: Selector, k: nat, r: Body)
    requires k < Count(body, sel) && r == RemovedUpTo(body, sel, k)
    ensures var at := GetFilesWanted(body, sel)[k] - k;
      0 <= at < |r| && Without(r, at) == RemovedUpTo(body, sel, k + 1)
  {
    var c, c' := Cut(body, sel, k), Cut(body, sel, k + 1);
    CountBeforeCut(body, sel, k);
    CutSegment(body, sel, k);
    RemoveLength(body[..c], sel);
    assert GetFilesWanted(body, sel)[k] - k == c - k == |Remove(body[..c], sel)|;
    assert r == Remove(body[..c], sel) + body[c..];
    assert RemovedUpTo(body, sel, k + 1) == Remove(body[..c'], sel) + body[c'..];
    RemoveStepAt(body, sel, c, c');
  }

  lemma RemoveStepAt(body: Body, sel: Selector, c: nat, c': nat)
    requires c < c' <= |body| && Matches(sel, body[c]) && Count(body[c + 1..c'], sel) == 0
    ensures var pre := Remove(body[..c], sel);
      var r := pre + body[c..];
      |pre| < |r| && r[..|pre|] + r[|pre| + 1..] == Remove(body[..c'], sel) + body[c'..]
  {
    assert body[..c'] == body[..c] + [body[c]] + body[c + 1..c'];
    assert body[c..] == [body[c]] + body[c + 1..c'] + body[c'..];
    RemoveSplice(body[..c], body[c], body[c + 1..c'], body[c'..], sel);
  }

  lemma RemoveSplice(pre: Body, it: Item, seg: Body, post: Body, sel: Selector)
    requires Matches(sel, it) && Count(seg, sel) == 0
    ensures var done := Remove(pre, sel);
      var r := done + ([it] + seg + post);
      |done| < |r| && r[..|done|] + r[|done| + 1..] == Remove(pre + [it] + seg, sel) + post
  {
    RemoveAround(pre, it, seg, post, sel);
    DeleteAfter(Remove(pre, sel), it, seg, post);
  }

  /** Deleting the item after `done` leaves the rest in place. */
  lemma DeleteAfter<T>(done: seq<T>, x: T, seg: seq<T>, post: seq<T>)
    ensures var r := done + ([x] + seg + post);
      |done| < |r| && r[..|done|] + r[|done| + 1..] == done + seg + post
  {
    var r := done + ([x] + seg + post);
    assert r[..|done|] == done;
    assert r[|done| + 1..] == seg + post;
  }

  /** Before the first selected item there is nothing to remove. */
  lemma RemoveStart(body: Body, sel: Selector)
    ensures RemovedUpTo(body, sel, 0) == body
  {
    var c := Cut(body, sel, 0);
    CountBeforeCut(body, sel, 0);
    RemoveNothing(body[..c], sel);
    assert RemovedUpTo(body, sel, 0) == body[..c] + body[c..];
    assert body[..c] + body[c..] == body;
  }

  /** Past the last selected item everything selected is gone. */
  lemma RemoveFinish(body: Body, sel: Selector, count: nat)
    requires count == Count(body, sel)
    ensures RemovedUpTo(body, sel, count) == Remove(body, sel)
  {
    var e := Cut(body, sel, count);
    assert e == |body|;
    assert body[..e] == body && body[e..] == [];
    assert RemovedUpTo(body, sel, count) == Remove(body, sel) + [];
  }

  /** The example of the test suite: the only element, of class `ijwt_remove`, is gone. */
  lemma RemoveExample()
    ensures Remove([Elem("div", "deleteme", ["ijwt_remove"], "")], RemoveSelector) == []
  {
    RemoveSingle(Elem("div", "deleteme", ["ijwt_remove"], ""), RemoveSelector);
  }

  /** The cache entry of a `.ijwt_cache` element: `hasher(id).toString()`. */
  function CacheKey(id: string): string
  {
    NumberToString(PolyHash(Utf16(id)))
  }

  /**
   * One `.ijwt_cache` element: in production, with a non-empty entry under
   * its key, the entry becomes its inner HTML; otherwise its inner HTML is
   * written under its key.
   */
  function CacheItem(mode: Mode, store: Store, it: Item): (Item, Store)
    requires it.Elem?
  {
    var key := CacheKey(it.id);
    var data := Get(store, key);
    if mode == Production && data.Some? then (it.(inner := data.value), store)
    else (it, Set(store, key, it.inner))
  }

  /** Positions of elements of the body. */
  predicate Selected(body: Body, at: seq<nat>)
  {
    forall k :: 0 <= k < |at| ==> at[k] < |body| && body[at[k]].Elem?
  }

  /** `b` is `a` with, at most, the inner HTML of some elements changed. */
  predicate SameButInner(a: Body, b: Body)
  {
    |a| == |b| &&
    forall j :: 0 <= j < |a| ==> b[j] == if a[j].Elem? && b[j].Elem? then a[j].(inner := b[j].inner) else a[j]
  }

  /** `cache_manager` over the elements at `at`, in order: the new body and store. */
  function ManageCaches(mode: Mode, store: Store, body: Body, at: seq<nat>): (r: (Body, Store))
    requires Selected(body, at)
    ensures SameButInner(body, r.0)
    decreases |at|
  {
    if at == [] then (body, store)
    else
      var (it, store1) := CacheItem(mode, store, body[at[0]]);
      ManageCaches(mode, store1, body[at[0] := it], at[1..])
  }

  /** One step of the pass: the `i`-th element handled, the rest still to do. */
  lemma ManageCachesStep(mode: Mode, store: Store, body: Body, at: seq<nat>, i: nat)
    requires Selected(body, at) && i < |at|
    ensures Selected(body, at[i..]) && Selected(body, at[i + 1..])
    ensures var (it, store1) := CacheItem(mode, store, body[at[i]]);
      Selected(body[at[i] := it], at[i + 1..]) &&
      ManageCaches(mode, store, body, at[i..]) == ManageCaches(mode, store1, body[at[i] := it], at[i + 1..])
  {
    assert at[i..][0] == at[i] && at[i..][1..] == at[i + 1..];
  }

  /** The cache entry name of the `k`-th handled element. */
  function KeyAt(body: Body, at: seq<nat>, k: nat): string
    requires Selected(body, at) && k < |at|
  {
    CacheKey(body[at[k]].id)
  }

  /** Entries under keys of no handled element are left alone. */
  lemma {:induction false} CacheFrame(mode: Mode, store: Store, body: Body, at: seq<nat>, name: string)
    requires Selected(body, at)
    requires forall k :: 0 <= k < |at| ==> KeyAt(body, at, k) != name
    ensures Get(ManageCaches(mode, store, body, at).1, name) == Get(store, name)
    decreases |at|
  {
    if at != [] {
      var (it, store1) := CacheItem(mode, store, body[at[0]]);
      var body1 := body[at[0] := it];
      forall k | 0 <= k < |at| - 1
        ensures KeyAt(body1, at[1..], k) != name
      {
        assert KeyAt(body1, at[1..], k) == KeyAt(body, at, k + 1);
      }
      CacheFrame(mode, store1, body1, at[1..], name);
      if store1 != store {
        GetAfterSetOther(store, KeyAt(body, at, 0), name, body[at[0]].inner);
      }
    }
  }

  /** In development the body is never changed. */
  lemma {:induction false} CacheDevelopmentKeepsBody(store: Store, body: Body, at: seq<nat>)
    requires Selected(body, at)
    ensures ManageCaches(Development, store, body, at).0 == body
    decreases |at|
  {
    if at != [] {
      var (it, store1) := CacheItem(Development, store, body[at[0]]);
      assert body[at[0] := it] == body;
      CacheDevelopmentKeepsBody(store1, body, at[1..]);
    }
  }

  /**
   * Capture: with no entry under their keys yet (or in development), and
   * keys that differ, the body is unchanged and every element's inner HTML
   * is stored under its key (an empty one reads back as absent).
   */
  lemma {:induction false} CacheCapture(mode: Mode, store: Store, body: Body, at: seq<nat>)
    requires Selected(body, at)
    requires forall k, l :: 0 <= k < l < |at| ==> KeyAt(body, at, k) != KeyAt(body, at, l)
    requires mode == Development || forall k :: 0 <= k < |at| ==> Get(store, KeyAt(body, at, k)).None?
    ensures ManageCaches(mode, store, body, at).0 == body
    ensures forall k :: 0 <= k < |at| ==>
      Get(ManageCaches(mode, store, body, at).1, KeyAt(body, at, k)) ==
        if body[at[k]].inner == "" then None else Some(body[at[k]].inner)
    decreases |at|
  {
    if at != [] {
      var key0, inner0 := KeyAt(body, at, 0), body[at[0]].inner;
      var store1 := Set(store, key0, inner0);
      assert CacheItem(mode, store, body[at[0]]) == (body[at[0]], store1);
      assert body[at[0] := body[at[0]]] == body;
      var rest := at[1..];
      forall k | 0 <= k < |rest|
        ensures KeyAt(body, rest, k) == KeyAt(body, at, k + 1)
      {
      }
      if mode == Production {
        forall k | 0 <= k < |rest|
          ensures Get(store1, KeyAt(body, rest, k)).None?
        {
          GetAfterSetOther(store, key0, KeyAt(body, rest, k), inner0);
        }
      }
      CacheCapture(mode, store1, body, rest);
      CacheFrame(mode, store1, body, rest, key0);
      GetAfterSet(store, key0, inner0);
    }
  }

  /**
   * Restore: in production, with a non-empty entry under every key, the
   * store is unchanged and each handled element takes its entry as its
   * inner HTML; nothing else changes.
   */
  lemma {:induction false} CacheRestore(store: Store, body: Body, at: seq<nat>)
    requires Selected(body, at)
    requires forall k :: 0 <= k < |at| ==> Get(store, KeyAt(body, at, k)).Some?
    ensures ManageCaches(Production, store, body, at).1 == store
    ensures forall k :: 0 <= k < |at| ==>
      ManageCaches(Production, store, body, at).0[at[k]] == body[at[k]].(inner := Get(store, KeyAt(body, at, k)).value)
    ensures forall j :: 0 <= j < |body| && j !in at ==> ManageCaches(Production, store, body, at).0[j] == body[j]
    decreases |at|
  {
    if at != [] {
      var it := body[at[0]].(inner := Get(store, KeyAt(body, at, 0)).value);
      var body1 := body[at[0] := it];
      assert CacheItem(Production, store, body[at[0]]) == (it, store);
      var rest := at[1..];
      forall k | 0 <= k < |rest|
        ensures KeyAt(body1, rest, k) == KeyAt(body, at, k + 1)
      {
      }
      CacheRestore(store, body1, rest);
      var r := ManageCaches(Production, store, body, at).0;
      forall k | 0 <= k < |at|
        ensures r[at[k]] == body[at[k]].(inner := Get(store, KeyAt(body, at, k)).value)
      {
        if k > 0 {
          assert at[k] == rest[k - 1];
        } else if at[0] in rest {
          var l :| 0 <= l < |rest| && rest[l] == at[0];
          assert r[at[0]] == body1[at[0]].(inner := Get(store, KeyAt(body1, rest, l)).value);
        }
      }
    }
  }

  /**
   * Capture, then restore: the cache elements of a body are captured into a
   * store that holds no entry for them; a later body that differs from it
   * only in the inner HTML of those elements is then restored to the
   * original, and the store is not touched again.  Ids must hash apart and
   * inner HTML be non-empty, or a later element reads an earlier one's entry.
   */
  lemma CacheRoundTrip(store: Store, body: Body, other: Body, found: seq<nat>)
    requires found == GetFilesWanted(body, CacheSelector)
    requires forall k, l :: 0 <= k < l < |found| ==> PolyHash(Utf16(body[found[k]].id)) != PolyHash(Utf16(body[found[l]].id))
    requires forall k :: 0 <= k < |found| ==> Get(store, CacheKey(body[found[k]].id)).None? && body[found[k]].inner != ""
    requires |other| == |body|
    requires forall j :: 0 <= j < |body| ==>
      other[j] == if Matches(CacheSelector, body[j]) && other[j].Elem? then body[j].(inner := other[j].inner) else body[j]
    ensures var (captured, store1) := ManageCaches(Production, store, body, found);
      captured == body &&
      ManageCaches(Production, store1, other, GetFilesWanted(other, CacheSelector)) == (body, store1)
  {
    assert Selected(body, found);
    KeysApart(body, found);
    CacheCapture(Production, store, body, found);
    var store1 := ManageCaches(Production, store, body, found).1;
    SelectSameShape(body, other, CacheSelector);
    RestoreOther(store1, body, other, found);
  }

  /** Ids whose hashes differ get different cache entries. */
  lemma KeysApart(body: Body, at: seq<nat>)
    requires Selected(body, at)
    requires forall k, l :: 0 <= k < l < |at| ==> PolyHash(Utf16(body[at[k]].id)) != PolyHash(Utf16(body[at[l]].id))
    ensures forall k, l :: 0 <= k < l < |at| ==> KeyAt(body, at, k) != KeyAt(body, at, l)
  {
    forall k, l | 0 <= k < l < |at|
      ensures KeyAt(body, at, k) != KeyAt(body, at, l)
    {
      var hk, hl := PolyHash(Utf16(body[at[k]].id)), PolyHash(Utf16(body[at[l]].id));
      assert KeyAt(body, at, k) == NumberToString(hk) && KeyAt(body, at, l) == NumberToString(hl);
      if NumberToString(hk) == NumberToString(hl) {
        NumberToStringInjective(hk, hl);
      }
    }
  }

  /** Restoring the captured entries into a body that differs only in those inner HTMLs. */
  lemma RestoreOther(store: Store, body: Body, other: Body, found: seq<nat>)
    requires found == GetFilesWanted(body, CacheSelector) && found == GetFilesWanted(other, CacheSelector)
    requires |other| == |body|
    requires forall j :: 0 <= j < |body| ==>
      other[j] == if Matches(CacheSelector, body[j]) && other[j].Elem? then body[j].(inner := other[j].inner) else body[j]
    requires forall k :: 0 <= k < |found| ==> Get(store, KeyAt(body, found, k)) == Some(body[found[k]].inner)
    ensures ManageCaches(Production, store, other, found) == (body, store)
  {
    assert Selected(other, found);
    forall k | 0 <= k < |found|
      ensures Get(store, KeyAt(other, found, k)) == Some(body[found[k]].inner)
    {
      assert other[found[k]].id == body[found[k]].id;
    }
    CacheRestore(store, other, found);
    var restored := ManageCaches(Production, store, other, found).0;
    forall j | 0 <= j < |body|
      ensures restored[j] == body[j]
    {
      if j in found {
        var k :| 0 <= k < |found| && found[k] == j;
        assert restored[found[k]] == other[found[k]].(inner := body[found[k]].inner);
      } else if Matches(CacheSelector, body[j]) {
        GetFilesWantedComplete(body, CacheSelector, j);
      }
    }
    assert |restored| == |body|;
    assert restored == body;
  }
}
