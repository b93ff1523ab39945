/** The two lookups over the built table: the substring search behind the
    search page and the title lookup behind the page view. */
module Lookup {
  import opened Options
  import opened GoStrings
  import opened IndexBuild

  /** The search filter: the entries whose lowercased title contains `q`, in
      table order. */
  function Matching(entries: seq<IndexEntry>, q: string): (r: seq<IndexEntry>)
    ensures |r| <= |entries|
    ensures forall k :: 0 <= k < |r| ==> r[k] in entries && Contains(ToLower(r[k].title), q)
    ensures forall k :: 0 <= k < |entries| && Contains(ToLower(entries[k].title), q) ==> entries[k] in r
    decreases |entries|
  {
    if entries == [] then []
    else
      var init := entries[..|entries| - 1];
      var last := entries[|entries| - 1];
      assert entries == init + [last];
      Matching(init, q) + (if Contains(ToLower(last.title), q) then [last] else [])
  }

  /** The filter keeps table order: filtering a concatenation concatenates the
      filtered parts. */
  lemma {:induction false} MatchingAppend(a: seq<IndexEntry>, b: seq<IndexEntry>, q: string)
    ensures Matching(a + b, q) == Matching(a, q) + Matching(b, q)
    decreases |b|
  {
    if b == [] {
      assert a + b == a;
    } else {
      var init := b[..|b| - 1];
      var last := b[|b| - 1];
      assert (a + b)[..|a + b| - 1] == a + init;
      assert (a + b)[|a + b| - 1] == last;
      MatchingAppend(a, init, q);
    }
  }

  /** Every title contains the empty string, so the empty query keeps the
      whole table. */
  lemma {:induction false} MatchingEmptyQuery(entries: seq<IndexEntry>)
    ensures Matching(entries, "") == entries
    decreases |entries|
  {
    if entries != [] {
      var init := entries[..|entries| - 1];
      MatchingEmptyQuery(init);
      assert HasPrefix(ToLower(entries[|entries| - 1].title), "");
      assert entries == init + [entries[|entries| - 1]];
    }
  }

  /** `searchIndex`: one pass over the table appending each entry whose
      lowercased title contains the lowercased query. */
  method SearchIndex(entries: seq<IndexEntry>, query: string) returns (results: seq<IndexEntry>)
    ensures results == Matching(entries, ToLower(query))
  {
    var q := ToLower(query);
    results := [];
    var i := 0;
    while i < |entries|
      invariant 0 <= i <= |entries|
      invariant results == Matching(entries[..i], q)
    {
      var entry := entries[i];
      assert entries[..i + 1][..i] == entries[..i];
      if Contains(ToLower(entry.title), q) {
        results := results + [entry];
      }
      i := i + 1;
    }
    assert entries[..i] == entries;
  }

  /** Entry `i` is the first whose title is exactly `q`. */
  predicate FirstExactAt(entries: seq<IndexEntry>, q: string, i: int) {
    0 <= i < |entries| && entries[i].title == q &&
    forall j :: 0 <= j < i ==> entries[j].title != q
  }

  /** No title is exactly `q`, and entry `i` is the first whose title equals
      `q` up to case. */
  predicate FirstFoldAt(entries: seq<IndexEntry>, q: string, i: int) {
    0 <= i < |entries| &&
    (forall j :: 0 <= j < |entries| ==> entries[j].title != q) &&
    EqualFold(entries[i].title, q) &&
    forall j :: 0 <= j < i ==> !EqualFold(entries[j].title, q)
  }

  /** At most one entry is chosen: the first exact match if there is one, the
      first case-insensitive match otherwise. */
  lemma {:induction false} ChosenIsUnique(entries: seq<IndexEntry>, q: string, i: int, k: int)
    requires FirstExactAt(entries, q, i) || FirstFoldAt(entries, q, i)
    requires FirstExactAt(entries, q, k) || FirstFoldAt(entries, q, k)
    ensures i == k
  {
  }

  /** `findPageByTitle`: with underscores turned into spaces, a first pass
      for an exact title and, failing that, a second pass for a title equal up
      to case. The result is absent exactly when no title matches up to case;
      otherwise it is the entry the two-phase order picks. */
  method FindPageByTitle(entries: seq<IndexEntry>, title: string) returns (r: Option<IndexEntry>)
    ensures r.None? <==>
      forall j :: 0 <= j < |entries| ==> !EqualFold(entries[j].title, ReplaceRune(title, '_', ' '))
    ensures r.Some? ==> exists i ::
      (FirstExactAt(entries, ReplaceRune(title, '_', ' '), i) ||
       FirstFoldAt(entries, ReplaceRune(title, '_', ' '), i)) && r.value == entries[i]
  {
    var q := ReplaceRune(title, '_', ' ');
    var i := 0;
    while i < |entries|
      invariant 0 <= i <= |entries|
      invariant forall j :: 0 <= j < i ==> entries[j].title != q
    {
      if entries[i].title == q {
        EqualFoldIsLowerEquality(entries[i].title, q);
        assert FirstExactAt(entries, q, i);
        return Some(entries[i]);
      }
      i := i + 1;
    }
    i := 0;
    while i < |entries|
      invariant 0 <= i <= |entries|
      invariant forall j :: 0 <= j < i ==> !EqualFold(entries[j].title, q)
    {
      if EqualFold(entries[i].title, q) {
        assert FirstFoldAt(entries, q, i);
        return Some(entries[i]);
      }
      i := i + 1;
    }
    return None;
  }
}
