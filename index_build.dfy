/** Building the offset index from the lines of the index listing
    (`loadIndex`, main.go:175-260, without the file, bzip2 and cache plumbing). */
module IndexBuild {
  import opened Options
  import opened GoStrings
  import opened GoStrconv
  import opened Offsets

  /** `IndexEntry`: the shared offset pair of the article's block, its page id
      and its title. */
  datatype IndexEntry = IndexEntry(offsets: OffsetPair, pageId: int, title: string)

  /** What one accepted `offset:pageid:title` line contributes. */
  datatype ParsedLine = ParsedLine(start: int, pageId: int, title: string)

  /** Titles in the six namespaces the build skips (main.go:214-219). */
  predicate IsReservedTitle(title: string) {
    HasPrefix(title, "File:") || HasPrefix(title, "Category:") ||
    HasPrefix(title, "Wikipedia:") || HasPrefix(title, "Draft:") ||
    HasPrefix(title, "Portal:") || HasPrefix(title, "Template:")
  }

  /** The six namespaces, each of which holds no `:` itself. */
  const ReservedNamespaces: set<string> := {"File", "Category", "Wikipedia", "Draft", "Portal", "Template"}

  /** A title starts with `ns:` for a namespace name without `:` exactly when
      the text before its first `:` is `ns`. */
  lemma {:induction false} NamespacePrefix(title: string, ns: string)
    requires ':' !in ns
    ensures HasPrefix(title, ns + ":") <==> Cut(title, ':').Some? && Cut(title, ':').value.0 == ns
  {
    if HasPrefix(title, ns + ":") {
      var after := title[|ns| + 1..];
      assert title == ns + [':'] + after;
      CutAtFirst(ns, ':', after);
    }
    if Cut(title, ':').Some? && Cut(title, ':').value.0 == ns {
      var after := Cut(title, ':').value.1;
      assert title == ns + [':'] + after;
      assert forall k :: 0 <= k < |ns| + 1 ==> title[k] == (ns + ":")[k];
    }
  }

  /** None of the six namespace names holds a `:`. */
  lemma NoColonInNamespaces()
    ensures forall ns :: ns in ReservedNamespaces ==> ':' !in ns
  {
  }

  /** The namespace filter skips a title exactly when the text before its first
      `:` names one of the six namespaces. */
  lemma {:induction false} ReservedTitleNamespace(title: string)
    ensures IsReservedTitle(title) <==> Cut(title, ':').Some? && Cut(title, ':').value.0 in ReservedNamespaces
  {
    NoColonInNamespaces();
    assert "File" + ":" == "File:";
    NamespacePrefix(title, "File");
    assert "Category" + ":" == "Category:";
    NamespacePrefix(title, "Category");
    assert "Wikipedia" + ":" == "Wikipedia:";
    NamespacePrefix(title, "Wikipedia");
    assert "Draft" + ":" == "Draft:";
    NamespacePrefix(title, "Draft");
    assert "Portal" + ":" == "Portal:";
    NamespacePrefix(title, "Portal");
    assert "Template" + ":" == "Template:";
    NamespacePrefix(title, "Template");
  }

  /** The per-line step of the first pass: two cuts at `:`, the namespace
      filter, and the two number parses with their errors ignored. */
  function ParseLine(line: string): (r: Option<ParsedLine>)
    ensures ':' !in line ==> r.None?
    ensures r.Some? ==> |r.value.title| + 2 <= |line| && line[|line| - |r.value.title|..] == r.value.title
    ensures r.Some? ==> line[|line| - |r.value.title| - 1] == ':' && !IsReservedTitle(r.value.title)
    ensures r.Some? ==> MinInt64 <= r.value.start <= MaxInt64 && MinInt64 <= r.value.pageId <= MaxInt64
  {
    match Cut(line, ':')
    case None => None
    case Some((offsetStr, rest)) =>
      match Cut(rest, ':')
      case None => None
      case Some((pageIdStr, title)) =>
        if IsReservedTitle(title) then None
        else Some(ParsedLine(ParseInt(offsetStr), ParseInt(pageIdStr), title))
  }

  /** A line `a:b:t` whose first two fields hold no `:` yields its title `t`
      whole (further colons included) unless `t` is reserved; the two numbers
      are parsed as `strconv` parses them, so a malformed one becomes 0. */
  lemma {:induction false} ParseLineWellFormed(a: string, b: string, t: string)
    requires ':' !in a && ':' !in b
    ensures ParseLine(a + ":" + b + ":" + t) ==
      if IsReservedTitle(t) then None else Some(ParsedLine(ParseInt(a), ParseInt(b), t))
  {
    assert a + ":" + b + ":" + t == a + [':'] + (b + [':'] + t);
    CutAtFirst(a, ':', b + [':'] + t);
    CutAtFirst(b, ':', t);
  }

  /** A line with fewer than two `:` separators yields nothing. */
  lemma {:induction false} ParseLineMalformed(line: string)
    requires forall i, j :: 0 <= i < j < |line| && line[i] == ':' ==> line[j] != ':'
    ensures ParseLine(line) == None
  {
    match Cut(line, ':')
    case None =>
    case Some((a, rest)) =>
      assert line[|a|] == ':';
  }

  /** The entries the first pass keeps, in listing order. */
  function ParseLines(lines: seq<string>): (r: seq<ParsedLine>)
    ensures |r| <= |lines|
  {
    if lines == [] then []
    else
      var init := ParseLines(lines[..|lines| - 1]);
      match ParseLine(lines[|lines| - 1])
      case Some(p) => init + [p]
      case None => init
  }

  function Label(e: IndexEntry): (int, string) {
    (e.pageId, e.title)
  }

  function LineLabel(p: ParsedLine): (int, string) {
    (p.pageId, p.title)
  }

  /** An entry read back as the line it describes. */
  function AsLine(e: IndexEntry): ParsedLine {
    ParsedLine(e.offsets.Start, e.pageId, e.title)
  }

  function MapSeq<A, B>(f: A -> B, s: seq<A>): (r: seq<B>)
    ensures |r| == |s| && forall i :: 0 <= i < |s| ==> r[i] == f(s[i])
  {
    if s == [] then [] else [f(s[0])] + MapSeq(f, s[1..])
  }

  lemma {:induction false} MapSeqConcat<A, B>(f: A -> B, u: seq<A>, v: seq<A>)
    ensures MapSeq(f, u + v) == MapSeq(f, u) + MapSeq(f, v)
  {
    assert |MapSeq(f, u + v)| == |MapSeq(f, u) + MapSeq(f, v)|;
    forall i | 0 <= i < |u| + |v| ensures MapSeq(f, u + v)[i] == (MapSeq(f, u) + MapSeq(f, v))[i] {
      if i < |u| { assert (u + v)[i] == u[i]; } else { assert (u + v)[i] == v[i - |u|]; }
    }
  }

  lemma {:induction false} SplitAt<A>(b: seq<A>, k: nat)
    requires k < |b|
    ensures b == b[..k] + [b[k]] + b[k + 1..]
  {
  }

  /** Removing the element at `k` from `b` removes its image from the mapped multiset. */
  lemma {:induction false} MapRemoveAt<A, B>(f: A -> B, b: seq<A>, k: nat)
    requires k < |b|
    ensures multiset(MapSeq(f, b)) == multiset(MapSeq(f, b[..k] + b[k + 1..])) + multiset{f(b[k])}
  {
    var u, v := b[..k], b[k + 1..];
    SplitAt(b, k);
    var mu, mv := MapSeq(f, u), MapSeq(f, v);
    MapSeqConcat(f, u + [b[k]], v);
    MapSeqConcat(f, u, [b[k]]);
    MapSeqConcat(f, u, v);
    assert MapSeq(f, [b[k]]) == [f(b[k])];
    assert MapSeq(f, b) == mu + [f(b[k])] + mv;
    assert MapSeq(f, u + v) == mu + mv;
    calc {
      multiset(MapSeq(f, b));
      multiset(mu + [f(b[k])] + mv);
      multiset(mu) + multiset{f(b[k])} + multiset(mv);
      multiset(mu + mv) + multiset{f(b[k])};
    }
  }

  lemma {:induction false} PermutationRemove<A>(a: seq<A>, b: seq<A>, k: nat)
    requires multiset(a) == multiset(b) && a != [] && k < |b| && b[k] == a[0]
    ensures multiset(a[1..]) == multiset(b[..k] + b[k + 1..])
  {
    var u, v := b[..k], b[k + 1..];
    assert a == [a[0]] + a[1..];
    assert b == u + [b[k]] + v;
    calc {
      multiset(a[1..]);
      multiset(a) - multiset{a[0]};
      multiset(b) - multiset{b[k]};
      multiset(u) + multiset(v);
      multiset(u + v);
    }
  }

  lemma {:induction false} MapPreservesPermutation<A, B>(f: A -> B, a: seq<A>, b: seq<A>)
    requires multiset(a) == multiset(b)
    ensures multiset(MapSeq(f, a)) == multiset(MapSeq(f, b))
    decreases |a|
  {
    if a == [] {
      assert |b| == |multiset(b)| == 0;
    } else {
      assert a[0] in multiset(b);
      var k :| 0 <= k < |b| && b[k] == a[0];
      var rest := b[..k] + b[k + 1..];
      PermutationRemove(a, b, k);
      MapPreservesPermutation(f, a[1..], rest);
      MapRemoveAt(f, b, k);
      assert MapSeq(f, a) == [f(a[0])] + MapSeq(f, a[1..]);
    }
  }

  predicate SortedByStart(s: seq<IndexEntry>) {
    forall i, j :: 0 <= i < j < |s| ==> s[i].offsets.Start <= s[j].offsets.Start
  }

  function InsertByStart(e: IndexEntry, s: seq<IndexEntry>): (r: seq<IndexEntry>)
    requires SortedByStart(s)
    ensures |r| == |s| + 1
    ensures SortedByStart(r)
    ensures multiset(r) == multiset(s) + multiset{e}
    ensures r[0] == e || (s != [] && r[0] == s[0])
  {
    if s == [] || e.offsets.Start <= s[0].offsets.Start then
      SortedCons(e, s);
      [e] + s
    else
      SortedTail(s);
      var t := InsertByStart(e, s[1..]);
      InsertBehindHead(e, s, t);
      [s[0]] + t
  }

  /** The recursive case of `InsertByStart`: an entry later than the head goes
      into the tail, and the head stays in front. */
  lemma {:induction false} InsertBehindHead(e: IndexEntry, s: seq<IndexEntry>, t: seq<IndexEntry>)
    requires SortedByStart(s) && s != [] && s[0].offsets.Start < e.offsets.Start
    requires SortedByStart(t) && multiset(t) == multiset(s[1..]) + multiset{e}
    requires t != [] && (t[0] == e || (s[1..] != [] && t[0] == s[1..][0]))
    ensures SortedByStart([s[0]] + t)
    ensures multiset([s[0]] + t) == multiset(s) + multiset{e}
  {
    assert s == [s[0]] + s[1..];
    SortedCons(s[0], t);
  }

  /** The tail of a sorted table is sorted. */
  lemma {:induction false} SortedTail(s: seq<IndexEntry>)
    requires SortedByStart(s) && s != []
    ensures SortedByStart(s[1..])
  {
    forall i, j | 0 <= i < j < |s| - 1 ensures s[1..][i].offsets.Start <= s[1..][j].offsets.Start {
      assert s[1..][i] == s[i + 1] && s[1..][j] == s[j + 1];
    }
  }

  /** An entry no later than the head of a sorted table can go in front. */
  lemma {:induction false} SortedCons(x: IndexEntry, t: seq<IndexEntry>)
    requires SortedByStart(t) && (t == [] || x.offsets.Start <= t[0].offsets.Start)
    ensures SortedByStart([x] + t)
  {
    var r := [x] + t;
    forall i, j | 0 <= i < j < |r| ensures r[i].offsets.Start <= r[j].offsets.Start {
      if i > 0 {
        assert r[i] == t[i - 1] && r[j] == t[j - 1];
      } else {
        assert r[j] == t[j - 1];
      }
    }
  }

  /** `sort.Slice` by `Offsets.Start` (main.go:233-235). The library sort is not
      stable, so only sortedness and permutation are promised. */
  function SortByStart(s: seq<IndexEntry>): (r: seq<IndexEntry>)
    ensures SortedByStart(r)
    ensures multiset(r) == multiset(s)
  {
    if s == [] then []
    else
      assert s == [s[0]] + s[1..];
      InsertByStart(s[0], SortByStart(s[1..]))
  }

  function StartsOf(s: seq<IndexEntry>): set<int> {
    set i | 0 <= i < |s| :: s[i].offsets.Start
  }

  function LineStarts(p: seq<ParsedLine>): set<int> {
    set i | 0 <= i < |p| :: p[i].start
  }

  /** `e` is the end of the block starting at `x` in a table whose starts are
      `starts`: the least start strictly greater than `x`, or 0 (read to the
      end of the file) when there is none. */
  ghost predicate IsBlockEnd(starts: set<int>, x: int, e: int) {
    if exists w :: w in starts && w > x then
      e in starts && e > x && forall w :: w in starts && w > x ==> e <= w
    else e == 0
  }

  /** Collision-free starts: starts that agree modulo 2^32 are equal, and only
      the start 0 is a multiple of 2^32. Then no two different pairs the build
      asks the cache for share a key. */
  ghost predicate KeysDistinct(starts: set<int>) {
    DistinctMod32(starts) && (forall a :: a in starts && a % Two32 == 0 ==> a == 0)
  }

  /** No two different members of `s` agree modulo 2^32. */
  ghost predicate DistinctMod32(s: set<int>) {
    forall a, b :: a in s && b in s && a % Two32 == b % Two32 ==> a == b
  }

  /** An archive below 4 GiB always has collision-free starts. */
  lemma KeysDistinctBelow4G(starts: set<int>)
    requires forall a :: a in starts ==> 0 <= a < Two32
    ensures KeysDistinct(starts)
  {
  }

  /** Both fields of `p` come from the listing: its start is a listed start and
      its end is 0 or a listed start. */
  ghost predicate PairFrom(p: OffsetPair, starts: set<int>) {
    p.Start in starts && (p.End == 0 || p.End in starts)
  }

  ghost predicate DrawnFrom(pairs: map<int, OffsetPair>, starts: set<int>) {
    forall k :: k in pairs ==> PairFrom(pairs[k], starts)
  }

  /** Among collision-free starts, a stored pair whose key matches a request holds
      exactly the requested values. */
  lemma PinnedByKey(starts: set<int>, p: OffsetPair, s: int, e: int)
    requires KeysDistinct(starts) && PairFrom(p, starts)
    requires s in starts && (e == 0 || e in starts)
    requires Key(p.Start, p.End) == Key(s, e)
    ensures p.Start == s && p.End == e
  {
    KeyEqualIff(p.Start, p.End, s, e);
  }

  /** The inner loop of the second pass: the first start after position `j - 1`
      that is strictly greater than `x`, or 0. */
  function NextFrom(s: seq<IndexEntry>, x: int, j: nat): (r: int)
    ensures r == 0 || r in StartsOf(s)
    decreases |s| - j
  {
    if j >= |s| then 0
    else if s[j].offsets.Start > x then s[j].offsets.Start
    else NextFrom(s, x, j + 1)
  }

  /** `NextFrom` looks only at positions from `j` on. */
  lemma {:induction false} NextFromSuffix(s: seq<IndexEntry>, t: seq<IndexEntry>, x: int, j: nat)
    requires |s| == |t| && forall k :: j <= k < |s| ==> s[k] == t[k]
    ensures NextFrom(s, x, j) == NextFrom(t, x, j)
    decreases |s| - j
  {
    if j < |s| {
      NextFromSuffix(s, t, x, j + 1);
    }
  }

  /** In a table sorted by start, the first strictly greater start met after
      the positions holding starts no greater than `x` is the least strictly
      greater start of the whole table. */
  lemma {:induction false} NextFromIsBlockEnd(s: seq<IndexEntry>, x: int, j: nat)
    requires SortedByStart(s) && j <= |s|
    requires forall k :: 0 <= k < j ==> s[k].offsets.Start <= x
    ensures IsBlockEnd(StartsOf(s), x, NextFrom(s, x, j))
    decreases |s| - j
  {
    if j == |s| {
      forall w | w in StartsOf(s) ensures w <= x {
        var k :| 0 <= k < |s| && s[k].offsets.Start == w;
      }
    } else if s[j].offsets.Start > x {
      assert s[j].offsets.Start in StartsOf(s);
      forall w | w in StartsOf(s) && w > x ensures s[j].offsets.Start <= w {
        var k :| 0 <= k < |s| && s[k].offsets.Start == w;
      }
    } else {
      NextFromIsBlockEnd(s, x, j + 1);
    }
  }

  lemma {:induction false} LineStartsSnoc(ps: seq<ParsedLine>, p: ParsedLine)
    ensures LineStarts(ps + [p]) == LineStarts(ps) + {p.start}
  {
    var l := ps + [p];
    assert l[|ps|] == p;
    forall w | w in LineStarts(l) ensures w in LineStarts(ps) + {p.start} {
      var i :| 0 <= i < |l| && l[i].start == w;
      if i < |ps| { assert l[i] == ps[i]; }
    }
    forall w | w in LineStarts(ps) ensures w in LineStarts(l) {
      var i :| 0 <= i < |ps| && ps[i].start == w;
      assert l[i] == ps[i];
    }
  }

  /** What the first pass has built for the lines kept so far. */
  ghost predicate FirstPassAgrees(all: seq<IndexEntry>, ps: seq<ParsedLine>, starts: set<int>) {
    |all| == |ps| &&
    forall i :: 0 <= i < |all| ==>
      Label(all[i]) == LineLabel(ps[i]) &&
      Key(all[i].offsets.Start, all[i].offsets.End) == Key(ps[i].start, 0) &&
      PairFrom(all[i].offsets, starts)
  }

  lemma {:induction false} ParseLinesStep(lines: seq<string>, n: nat)
    requires n < |lines|
    ensures ParseLines(lines[..n + 1]) ==
      match ParseLine(lines[n])
      case Some(p) => ParseLines(lines[..n]) + [p]
      case None => ParseLines(lines[..n])
  {
    assert lines[..n + 1][..n] == lines[..n];
  }

  lemma {:induction false} FirstPassExtend(all: seq<IndexEntry>, ps: seq<ParsedLine>, starts: set<int>, e: IndexEntry, p: ParsedLine)
    requires FirstPassAgrees(all, ps, starts)
    requires Label(e) == LineLabel(p) && Key(e.offsets.Start, e.offsets.End) == Key(p.start, 0)
    requires PairFrom(e.offsets, starts + {p.start})
    ensures FirstPassAgrees(all + [e], ps + [p], starts + {p.start})
  {
  }

  /** Storing a pair whose fields come from the listing keeps the whole cache
      drawn from the listing. */
  lemma DrawnFromStore(pairs: map<int, OffsetPair>, starts: set<int>, k: int, q: OffsetPair)
    requires DrawnFrom(pairs, starts) && PairFrom(q, starts)
    ensures DrawnFrom(pairs[k := q], starts)
  {
  }

  /** What the cache holds after the first pass over the kept lines `ps`:
      entry `i` holds the pair filed under the key of `(start_i, 0)`, every
      stored pair has end 0, and every key is the key of some kept line. */
  ghost predicate FirstPassCache(all: seq<IndexEntry>, ps: seq<ParsedLine>, pairs: map<int, OffsetPair>) {
    |all| == |ps| &&
    (forall i :: 0 <= i < |all| ==> Key(ps[i].start, 0) in pairs && all[i].offsets == pairs[Key(ps[i].start, 0)]) &&
    (forall k :: k in pairs ==> pairs[k].End == 0 && exists i :: 0 <= i < |ps| && k == Key(ps[i].start, 0))
  }

  lemma {:induction false} FirstPassCacheExtend(all: seq<IndexEntry>, ps: seq<ParsedLine>, before: map<int, OffsetPair>,
                             after: map<int, OffsetPair>, e: IndexEntry, p: ParsedLine)
    requires FirstPassCache(all, ps, before)
    requires Key(p.start, 0) in after && e.offsets == after[Key(p.start, 0)]
    requires Key(p.start, 0) in before ==> after == before
    requires Key(p.start, 0) !in before ==> e.offsets.End == 0 && after == before[Key(p.start, 0) := e.offsets]
    ensures FirstPassCache(all + [e], ps + [p], after)
  {
    var all', ps' := all + [e], ps + [p];
    forall i | 0 <= i < |all'| ensures Key(ps'[i].start, 0) in after && all'[i].offsets == after[Key(ps'[i].start, 0)] {
      if i < |all| {
        assert all'[i] == all[i] && ps'[i] == ps[i];
      }
    }
    forall k | k in after ensures after[k].End == 0 && exists i :: 0 <= i < |ps'| && k == Key(ps'[i].start, 0) {
      if k in before {
        var i :| 0 <= i < |ps| && k == Key(ps[i].start, 0);
        assert ps'[i] == ps[i];
      } else {
        assert ps'[|ps|] == p;
      }
    }
  }

  /** The entry the first pass appends for one kept line (main.go:226-230). */
  method NewEntry(cache: OffsetCache, p: ParsedLine, ghost starts: set<int>) returns (e: IndexEntry)
    requires cache.Valid() && DrawnFrom(cache.pairs, starts) && p.start in starts
    modifies cache
    ensures cache.Valid() && DrawnFrom(cache.pairs, starts)
    ensures Label(e) == LineLabel(p) && Key(e.offsets.Start, e.offsets.End) == Key(p.start, 0)
    ensures PairFrom(e.offsets, starts)
    ensures Key(p.start, 0) in cache.pairs && e.offsets == cache.pairs[Key(p.start, 0)]
    ensures Key(p.start, 0) in old(cache.pairs) ==> cache.pairs == old(cache.pairs)
    ensures Key(p.start, 0) !in old(cache.pairs) ==>
      fresh(e.offsets) && e.offsets.Start == p.start && e.offsets.End == 0 &&
      cache.pairs == old(cache.pairs)[Key(p.start, 0) := e.offsets]
  {
    ghost var before := cache.pairs;
    var pair := cache.GetOrCreate(p.start, 0);
    if Key(p.start, 0) !in before {
      DrawnFromStore(before, starts, Key(p.start, 0), pair);
    }
    e := IndexEntry(pair, p.pageId, p.title);
  }

  /** The first pass (main.go:196-231): parse every line, and give each kept
      one the pair `(start, 0)` from the cache. */
  method ParsePass(lines: seq<string>, cache: OffsetCache) returns (all: seq<IndexEntry>)
    requires cache.Valid() && cache.pairs == map[]
    modifies cache
    ensures cache.Valid()
    ensures FirstPassAgrees(all, ParseLines(lines), LineStarts(ParseLines(lines)))
    ensures DrawnFrom(cache.pairs, LineStarts(ParseLines(lines)))
    ensures FirstPassCache(all, ParseLines(lines), cache.pairs)
  {
    all := [];
    ghost var ps: seq<ParsedLine> := [];
    ghost var starts: set<int> := {};
    var n := 0;
    while n < |lines|
      invariant cache.Valid() && ParsedSoFar(lines, n, all, ps, starts, cache.pairs)
    {
      all, ps, starts := ParseStep(lines, n, cache, all, ps, starts);
      n := n + 1;
    }
    assert lines[..n] == lines;
  }

  /** The first pass's loop invariant after `n` lines: `all` agrees with the
      lines kept so far, `starts` are their offsets, and the cache is as the
      first pass leaves it. */
  ghost predicate ParsedSoFar(lines: seq<string>, n: nat, all: seq<IndexEntry>, ps: seq<ParsedLine>,
                              starts: set<int>, pairs: map<int, OffsetPair>) {
    n <= |lines| && ps == ParseLines(lines[..n]) && starts == LineStarts(ps) &&
    DrawnFrom(pairs, starts) && FirstPassAgrees(all, ps, starts) && FirstPassCache(all, ps, pairs)
  }

  /** One round of the first pass's loop: line `n` is parsed and, when kept,
      its entry is appended with the pair `getOrCreate(start, 0)` returns. */
  method ParseStep(lines: seq<string>, n: nat, cache: OffsetCache, all: seq<IndexEntry>,
                   ghost ps: seq<ParsedLine>, ghost starts: set<int>)
    returns (all': seq<IndexEntry>, ghost ps': seq<ParsedLine>, ghost starts': set<int>)
    requires n < |lines| && cache.Valid() && ParsedSoFar(lines, n, all, ps, starts, cache.pairs)
    modifies cache
    ensures cache.Valid() && ParsedSoFar(lines, n + 1, all', ps', starts', cache.pairs)
  {
    ParseLinesStep(lines, n);
    all', ps', starts' := all, ps, starts;
    match ParseLine(lines[n]) {
      case None =>
      case Some(p) =>
        LineStartsSnoc(ps, p);
        ghost var grown := starts + {p.start};
        ghost var before := cache.pairs;
        var entry := NewEntry(cache, p, grown);
        FirstPassExtend(all, ps, starts, entry, p);
        FirstPassCacheExtend(all, ps, before, cache.pairs, entry, p);
        all', ps', starts' := all + [entry], ps + [p], grown;
    }
  }

  /** The inner loop of the second pass (main.go:241-247): the first start
      after position `i` that is strictly greater than the start at `i`, or 0. */
  method NextOffset(a: seq<IndexEntry>, i: nat) returns (next: int)
    requires i < |a|
    ensures next == NextFrom(a, a[i].offsets.Start, i + 1)
  {
    var start := a[i].offsets.Start;
    next := 0;
    var j := i + 1;
    while j < |a|
      invariant i + 1 <= j <= |a|
      invariant next == 0
      invariant NextFrom(a, start, i + 1) == NextFrom(a, start, j)
    {
      if a[j].offsets.Start > start {
        next := a[j].offsets.Start;
        return;
      }
      j := j + 1;
    }
  }

  /** The cache slot the second pass asks for at position `k` of the sorted table. */
  function EndKey(sorted: seq<IndexEntry>, k: nat): int
    requires k < |sorted|
  {
    Key(sorted[k].offsets.Start, NextFrom(sorted, sorted[k].offsets.Start, k + 1))
  }

  /** The first `i` entries of `done` have received their second-pass pairs. */
  ghost predicate Settled(done: seq<IndexEntry>, sorted: seq<IndexEntry>, pairs: map<int, OffsetPair>, i: nat)
    requires i <= |done| == |sorted|
  {
    forall k :: 0 <= k < i ==>
      Label(done[k]) == Label(sorted[k]) && EndKey(sorted, k) in pairs && done[k].offsets == pairs[EndKey(sorted, k)]
  }

  /** The cache grows only by new keys, so pairs already handed out stay filed. */
  lemma {:induction false} SettledGrows(done: seq<IndexEntry>, sorted: seq<IndexEntry>, pairs: map<int, OffsetPair>,
                     grown: map<int, OffsetPair>, i: nat)
    requires i <= |done| == |sorted| && Settled(done, sorted, pairs, i)
    requires forall k :: k in pairs ==> k in grown && grown[k] == pairs[k]
    ensures Settled(done, sorted, grown, i)
  {
  }

  /** `q`, filed under `k`, is the pair the second pass created at some
      position `i` of the sorted table: it holds that entry's start and next
      greater start. */
  ghost predicate CreatedBy(sorted: seq<IndexEntry>, k: int, q: OffsetPair) {
    exists i :: 0 <= i < |sorted| && k == EndKey(sorted, i) &&
      q.Start == sorted[i].offsets.Start && q.End == NextFrom(sorted, sorted[i].offsets.Start, i + 1)
  }

  /** Handing entry `i` its second-pass pair settles one more entry and
      leaves the later ones as they were. */
  lemma {:induction false} SettledStep(done: seq<IndexEntry>, sorted: seq<IndexEntry>, pairs: map<int, OffsetPair>, i: nat, p: OffsetPair)
    requires i < |done| == |sorted| && Settled(done, sorted, pairs, i)
    requires done[i] == sorted[i] && EndKey(sorted, i) in pairs && p == pairs[EndKey(sorted, i)]
    ensures Settled(done[i := done[i].(offsets := p)], sorted, pairs, i + 1)
  {
  }

  /** One request of the second pass keeps the first pass's pairs and adds at
      most the pair it creates for position `i`. */
  lemma {:induction false} SecondPassStep(sorted: seq<IndexEntry>, pairs0: map<int, OffsetPair>, before: map<int, OffsetPair>,
                       after: map<int, OffsetPair>, i: nat, p: OffsetPair)
    requires i < |sorted|
    requires forall k :: k in pairs0 ==> k in before && before[k] == pairs0[k]
    requires forall k :: k in before && k !in pairs0 ==> CreatedBy(sorted, k, before[k])
    requires EndKey(sorted, i) in before ==> after == before
    requires EndKey(sorted, i) !in before ==>
      p.Start == sorted[i].offsets.Start && p.End == NextFrom(sorted, sorted[i].offsets.Start, i + 1) &&
      after == before[EndKey(sorted, i) := p]
    ensures forall k :: k in pairs0 ==> k in after && after[k] == pairs0[k]
    ensures forall k :: k in after && k !in pairs0 ==> CreatedBy(sorted, k, after[k])
  {
    if EndKey(sorted, i) !in before {
      assert CreatedBy(sorted, EndKey(sorted, i), p);
    }
  }

  /** One step of the second pass for a start and its next start. */
  method EndPair(cache: OffsetCache, start: int, next: int, ghost starts: set<int>) returns (p: OffsetPair)
    requires cache.Valid() && DrawnFrom(cache.pairs, starts)
    requires start in starts && (next == 0 || next in starts)
    modifies cache
    ensures cache.Valid() && DrawnFrom(cache.pairs, starts)
    ensures Key(start, next) in cache.pairs && p == cache.pairs[Key(start, next)]
    ensures Key(start, next) in old(cache.pairs) ==> cache.pairs == old(cache.pairs)
    ensures Key(start, next) !in old(cache.pairs) ==>
      fresh(p) && p.Start == start && p.End == next && cache.pairs == old(cache.pairs)[Key(start, next) := p]
    ensures forall k :: k in old(cache.pairs) ==> k in cache.pairs && cache.pairs[k] == old(cache.pairs)[k]
  {
    ghost var before := cache.pairs;
    p := cache.GetOrCreate(start, next);
    if Key(start, next) !in before {
      DrawnFromStore(before, starts, Key(start, next), p);
    }
  }

  /** The second pass (main.go:237-250), in place on the sorted entries: each
      entry gets the pair `(start, next)` where `next` is the first strictly
      greater start after it, or 0. */
  method EndPass(sorted: seq<IndexEntry>, cache: OffsetCache, ghost starts: set<int>)
    returns (entries: seq<IndexEntry>)
    requires cache.Valid() && DrawnFrom(cache.pairs, starts)
    requires forall i :: 0 <= i < |sorted| ==> sorted[i].offsets.Start in starts
    modifies cache
    ensures cache.Valid() && DrawnFrom(cache.pairs, starts)
    ensures |entries| == |sorted| && Settled(entries, sorted, cache.pairs, |sorted|)
    ensures forall k :: k in old(cache.pairs) ==> k in cache.pairs && cache.pairs[k] == old(cache.pairs)[k]
    ensures forall k :: k in cache.pairs && k !in old(cache.pairs) ==> CreatedBy(sorted, k, cache.pairs[k])
  {
    ghost var pairs0 := cache.pairs;
    entries := sorted;
    var i := 0;
    while i < |entries|
      invariant cache.Valid() && EndPassSoFar(entries, sorted, pairs0, cache.pairs, starts, i)
    {
      entries := SettleEntry(entries, sorted, cache, i, starts, pairs0);
      i := i + 1;
    }
  }

  /** The loop invariant of the second pass after `i` rounds: the first `i`
      entries hold their pairs, the rest are as sorted, and the cache has kept
      the first pass's pairs and added only pairs created for settled
      positions. */
  ghost predicate EndPassSoFar(entries: seq<IndexEntry>, sorted: seq<IndexEntry>, pairs0: map<int, OffsetPair>,
                               pairs: map<int, OffsetPair>, starts: set<int>, i: nat) {
    && i <= |entries| == |sorted|
    && DrawnFrom(pairs, starts)
    && (forall k :: 0 <= k < |sorted| ==> sorted[k].offsets.Start in starts)
    && (forall k :: k in pairs0 ==> k in pairs && pairs[k] == pairs0[k])
    && (forall k :: k in pairs && k !in pairs0 ==> CreatedBy(sorted, k, pairs[k]))
    && (forall k :: i <= k < |sorted| ==> entries[k] == sorted[k])
    && Settled(entries, sorted, pairs, i)
  }

  /** One round of the second pass: entry `i` gets the pair for its start and
      the next greater start. */
  method SettleEntry(entries: seq<IndexEntry>, sorted: seq<IndexEntry>, cache: OffsetCache, i: nat,
                     ghost starts: set<int>, ghost pairs0: map<int, OffsetPair>)
    returns (entries': seq<IndexEntry>)
    requires i < |entries| && cache.Valid() && EndPassSoFar(entries, sorted, pairs0, cache.pairs, starts, i)
    modifies cache
    ensures cache.Valid() && EndPassSoFar(entries', sorted, pairs0, cache.pairs, starts, i + 1)
  {
    var next := NextOffset(entries, i);
    assert next == NextFrom(sorted, sorted[i].offsets.Start, i + 1) by {
      NextFromSuffix(entries, sorted, sorted[i].offsets.Start, i + 1);
    }
    assert next == 0 || next in starts by {
      if next != 0 {
        var k :| 0 <= k < |sorted| && sorted[k].offsets.Start == next;
      }
    }
    ghost var before := cache.pairs;
    assert Key(entries[i].offsets.Start, next) == EndKey(sorted, i);
    var p := EndPair(cache, entries[i].offsets.Start, next, starts);
    SettledGrows(entries, sorted, before, cache.pairs, i);
    SecondPassStep(sorted, pairs0, before, cache.pairs, i, p);
    SettledStep(entries, sorted, cache.pairs, i, p);
    entries' := entries[i := entries[i].(offsets := p)];
  }

  /** A start followed by a strictly greater one ends where that one begins. */
  lemma {:induction false} BoundaryEnd(entries: seq<IndexEntry>, i: nat)
    requires SortedByStart(entries) && i + 1 < |entries|
    requires IsBlockEnd(StartsOf(entries), entries[i].offsets.Start, entries[i].offsets.End)
    requires entries[i].offsets.Start < entries[i + 1].offsets.Start
    ensures entries[i].offsets.End == entries[i + 1].offsets.Start
  {
    var x, y := entries[i].offsets.Start, entries[i + 1].offsets.Start;
    assert y in StartsOf(entries);
    forall w | w in StartsOf(entries) && w > x ensures y <= w {
      var k :| 0 <= k < |entries| && entries[k].offsets.Start == w;
    }
  }

  /** The group holding the greatest start reads to the end of the file. */
  lemma {:induction false} LastGroupEnd(entries: seq<IndexEntry>, i: nat)
    requires SortedByStart(entries) && i < |entries|
    requires IsBlockEnd(StartsOf(entries), entries[i].offsets.Start, entries[i].offsets.End)
    requires entries[i].offsets.Start == entries[|entries| - 1].offsets.Start
    ensures entries[i].offsets.End == 0
  {
    forall w | w in StartsOf(entries) ensures w <= entries[i].offsets.Start {
      var k :| 0 <= k < |entries| && entries[k].offsets.Start == w;
    }
  }

  /** The table invariant of a collision-free build: consecutive entries with
      different starts meet at a block boundary, and the last group is
      unbounded. */
  lemma {:induction false} GroupBoundaries(entries: seq<IndexEntry>)
    requires SortedByStart(entries)
    requires forall i :: 0 <= i < |entries| ==>
      IsBlockEnd(StartsOf(entries), entries[i].offsets.Start, entries[i].offsets.End)
    ensures forall i :: 0 <= i < |entries| - 1 && entries[i].offsets.Start < entries[i + 1].offsets.Start ==>
      entries[i].offsets.End == entries[i + 1].offsets.Start
    ensures forall i :: 0 <= i < |entries| && entries[i].offsets.Start == entries[|entries| - 1].offsets.Start ==>
      entries[i].offsets.End == 0
  {
    forall i | 0 <= i < |entries| - 1 && entries[i].offsets.Start < entries[i + 1].offsets.Start
      ensures entries[i].offsets.End == entries[i + 1].offsets.Start
    {
      BoundaryEnd(entries, i);
    }
    forall i | 0 <= i < |entries| && entries[i].offsets.Start == entries[|entries| - 1].offsets.Start
      ensures entries[i].offsets.End == 0
    {
      LastGroupEnd(entries, i);
    }
  }

  /** Sorting moves entries around but keeps every start a listed start. */
  lemma {:induction false} SortedStartsListed(all: seq<IndexEntry>, sorted: seq<IndexEntry>, starts: set<int>)
    requires multiset(sorted) == multiset(all)
    requires forall i :: 0 <= i < |all| ==> PairFrom(all[i].offsets, starts)
    ensures forall i :: 0 <= i < |sorted| ==> sorted[i].offsets.Start in starts
  {
    forall i | 0 <= i < |sorted| ensures sorted[i].offsets.Start in starts {
      assert sorted[i] in multiset(all);
      var k :| 0 <= k < |all| && all[k] == sorted[i];
    }
  }

  /** With collision-free starts every second-pass pair holds exactly the requested
      start and next start. */
  lemma {:induction false} EndPairsExact(sorted: seq<IndexEntry>, entries: seq<IndexEntry>, pairs: map<int, OffsetPair>,
                      starts: set<int>, i: nat)
    requires KeysDistinct(starts) && DrawnFrom(pairs, starts) && FiledUnderOwnKeys(pairs)
    requires |entries| == |sorted| && Settled(entries, sorted, pairs, |sorted|) && i < |sorted|
    requires forall k :: 0 <= k < |sorted| ==> sorted[k].offsets.Start in starts
    ensures entries[i].offsets.Start == sorted[i].offsets.Start
    ensures entries[i].offsets.End == NextFrom(sorted, sorted[i].offsets.Start, i + 1)
  {
    var x := sorted[i].offsets.Start;
    var next := NextFrom(sorted, x, i + 1);
    assert next == 0 || next in starts by {
      if next != 0 {
        var k :| 0 <= k < |sorted| && sorted[k].offsets.Start == next;
      }
    }
    var key := EndKey(sorted, i);
    assert key in pairs && entries[i].offsets == pairs[key];
    assert PairFrom(pairs[key], starts);
    PinnedByKey(starts, entries[i].offsets, x, next);
  }

  lemma {:induction false} AllEndPairsExact(sorted: seq<IndexEntry>, entries: seq<IndexEntry>, pairs: map<int, OffsetPair>,
                         starts: set<int>)
    requires KeysDistinct(starts) && DrawnFrom(pairs, starts) && FiledUnderOwnKeys(pairs)
    requires |entries| == |sorted| && Settled(entries, sorted, pairs, |sorted|)
    requires forall k :: 0 <= k < |sorted| ==> sorted[k].offsets.Start in starts
    ensures forall i :: 0 <= i < |sorted| ==>
      entries[i].offsets.Start == sorted[i].offsets.Start &&
      entries[i].offsets.End == NextFrom(sorted, sorted[i].offsets.Start, i + 1)
  {
    forall i | 0 <= i < |sorted|
      ensures entries[i].offsets.Start == sorted[i].offsets.Start
      ensures entries[i].offsets.End == NextFrom(sorted, sorted[i].offsets.Start, i + 1)
    {
      EndPairsExact(sorted, entries, pairs, starts, i);
    }
  }

  /** In a sorted table the second pass computes, at every position, the end
      of that entry's block. */
  lemma {:induction false} AllBlockEnds(sorted: seq<IndexEntry>)
    requires SortedByStart(sorted)
    ensures forall i :: 0 <= i < |sorted| ==>
      IsBlockEnd(StartsOf(sorted), sorted[i].offsets.Start, NextFrom(sorted, sorted[i].offsets.Start, i + 1))
  {
    forall i | 0 <= i < |sorted|
      ensures IsBlockEnd(StartsOf(sorted), sorted[i].offsets.Start, NextFrom(sorted, sorted[i].offsets.Start, i + 1))
    {
      NextFromIsBlockEnd(sorted, sorted[i].offsets.Start, i + 1);
    }
  }

  /** `loadIndex` over the listing's lines. Whatever the input, the table has
      one entry per kept line, carries the kept lines' page ids and titles,
      uses only listed starts, is sorted by start, and makes entries with
      equal starts share one pair; every end that is not 0 is the end of its
      block, and every end agrees with its block's end modulo 2^32 (so an end
      is wrongly 0 only when the block end is a non-zero multiple of 2^32).
      When the listing has collision-free starts, the table is moreover a
      permutation of the kept lines and gives every entry the end of its
      block. */
  method LoadIndex(lines: seq<string>) returns (entries: seq<IndexEntry>)
    ensures |entries| == |ParseLines(lines)|
    ensures multiset(MapSeq(Label, entries)) == multiset(MapSeq(LineLabel, ParseLines(lines)))
    ensures forall i :: 0 <= i < |entries| ==> entries[i].offsets.Start in LineStarts(ParseLines(lines))
    ensures SortedByStart(entries)
    ensures forall i, j ::
      (0 <= i < |entries| && 0 <= j < |entries| && entries[i].offsets.Start == entries[j].offsets.Start) ==>
      entries[i].offsets == entries[j].offsets
    ensures forall i :: 0 <= i < |entries| ==>
      entries[i].offsets.End == 0 || IsBlockEnd(StartsOf(entries), entries[i].offsets.Start, entries[i].offsets.End)
    ensures forall i, e :: 0 <= i < |entries| && IsBlockEnd(StartsOf(entries), entries[i].offsets.Start, e) ==>
      entries[i].offsets.End % Two32 == e % Two32
    ensures KeysDistinct(LineStarts(ParseLines(lines))) ==>
      && multiset(MapSeq(AsLine, entries)) == multiset(ParseLines(lines))
      && (forall i :: 0 <= i < |entries| ==>
            IsBlockEnd(StartsOf(entries), entries[i].offsets.Start, entries[i].offsets.End))
  {
    ghost var parsed := ParseLines(lines);
    ghost var starts := LineStarts(parsed);
    var cache := new OffsetCache();
    var all := ParsePass(lines, cache);
    ghost var pairs0 := cache.pairs;
    FirstPassStarts(all, parsed, pairs0);
    var sorted := SortByStart(all);
    StartsOfPermutation(all, sorted);
    SortedStartsListed(all, sorted, starts);
    entries := EndPass(sorted, cache, starts);

    PassesTable(parsed, all, sorted, entries, cache.pairs, starts);
    TableShape(sorted, entries, pairs0, cache.pairs);
    if KeysDistinct(starts) {
      CollisionFreeTable(parsed, all, sorted, entries, cache.pairs, starts);
    }
  }

  /** The unconditional half of `LoadIndex`, proved from what the three passes
      promise. */
  lemma {:induction false} PassesTable(parsed: seq<ParsedLine>, all: seq<IndexEntry>, sorted: seq<IndexEntry>,
                    entries: seq<IndexEntry>, pairs: map<int, OffsetPair>, starts: set<int>)
    requires FirstPassAgrees(all, parsed, starts) && DrawnFrom(pairs, starts)
    requires multiset(sorted) == multiset(all)
    requires |entries| == |sorted| && Settled(entries, sorted, pairs, |sorted|)
    ensures |entries| == |parsed|
    ensures multiset(MapSeq(Label, entries)) == multiset(MapSeq(LineLabel, parsed))
    ensures forall i :: 0 <= i < |entries| ==> entries[i].offsets.Start in starts
  {
    assert |sorted| == |all| by {
      calc { |sorted|; |multiset(sorted)|; |multiset(all)|; |all|; }
    }
    assert MapSeq(Label, all) == MapSeq(LineLabel, parsed);
    assert MapSeq(Label, entries) == MapSeq(Label, sorted);
    MapPreservesPermutation(Label, sorted, all);
    forall i | 0 <= i < |entries| ensures entries[i].offsets.Start in starts {
      assert PairFrom(pairs[EndKey(sorted, i)], starts);
    }
  }

  /** The conditional half of `LoadIndex`, proved from what the three passes
      promise. */
  lemma {:induction false} CollisionFreeTable(parsed: seq<ParsedLine>, all: seq<IndexEntry>, sorted: seq<IndexEntry>,
                           entries: seq<IndexEntry>, pairs: map<int, OffsetPair>, starts: set<int>)
    requires KeysDistinct(starts) && DrawnFrom(pairs, starts) && FiledUnderOwnKeys(pairs)
    requires FirstPassAgrees(all, parsed, starts) && starts == LineStarts(parsed)
    requires SortedByStart(sorted) && multiset(sorted) == multiset(all)
    requires forall k :: 0 <= k < |sorted| ==> sorted[k].offsets.Start in starts
    requires |entries| == |sorted| && Settled(entries, sorted, pairs, |sorted|)
    ensures multiset(MapSeq(AsLine, entries)) == multiset(parsed)
    ensures forall i :: 0 <= i < |entries| ==>
      IsBlockEnd(StartsOf(entries), entries[i].offsets.Start, entries[i].offsets.End)
  {
    forall i | 0 <= i < |all| ensures AsLine(all[i]) == parsed[i] {
      assert parsed[i].start in starts;
      PinnedByKey(starts, all[i].offsets, parsed[i].start, 0);
    }
    assert MapSeq(AsLine, all) == parsed;
    MapPreservesPermutation(AsLine, sorted, all);
    AllEndPairsExact(sorted, entries, pairs, starts);
    assert MapSeq(AsLine, entries) == MapSeq(AsLine, sorted);
    assert StartsOf(entries) == StartsOf(sorted);
    AllBlockEnds(sorted);
  }

  /** Entries of the sorted table with equal starts ask the cache for the same
      key, so they receive the same pair. */
  lemma {:induction false} SharedPairs(sorted: seq<IndexEntry>, entries: seq<IndexEntry>, pairs: map<int, OffsetPair>)
    requires SortedByStart(sorted)
    requires |entries| == |sorted| && Settled(entries, sorted, pairs, |sorted|)
    requires forall i :: 0 <= i < |sorted| ==> entries[i].offsets.Start == sorted[i].offsets.Start
    ensures forall i, j ::
      (0 <= i < |entries| && 0 <= j < |entries| && entries[i].offsets.Start == entries[j].offsets.Start) ==>
      entries[i].offsets == entries[j].offsets
  {
    AllBlockEnds(sorted);
    forall i, j | 0 <= i < |entries| && 0 <= j < |entries| && entries[i].offsets.Start == entries[j].offsets.Start
      ensures entries[i].offsets == entries[j].offsets
    {
      var x := sorted[i].offsets.Start;
      BlockEndUnique(StartsOf(sorted), x, NextFrom(sorted, x, i + 1), NextFrom(sorted, x, j + 1));
      assert EndKey(sorted, i) == EndKey(sorted, j);
    }
  }

  /** A block has one end. */
  lemma BlockEndUnique(starts: set<int>, x: int, e1: int, e2: int)
    requires IsBlockEnd(starts, x, e1) && IsBlockEnd(starts, x, e2)
    ensures e1 == e2
  {
    if exists w :: w in starts && w > x {
      assert e1 <= e2 && e2 <= e1;
    }
  }

  /** Sorting keeps the set of starts. */
  lemma {:induction false} StartsOfPermutation(a: seq<IndexEntry>, b: seq<IndexEntry>)
    requires multiset(a) == multiset(b)
    ensures StartsOf(a) == StartsOf(b)
  {
    forall w | w in StartsOf(a) ensures w in StartsOf(b) {
      var i :| 0 <= i < |a| && a[i].offsets.Start == w;
      assert a[i] in multiset(b);
      var j :| 0 <= j < |b| && b[j] == a[i];
    }
    forall w | w in StartsOf(b) ensures w in StartsOf(a) {
      var j :| 0 <= j < |b| && b[j].offsets.Start == w;
      assert b[j] in multiset(a);
      var i :| 0 <= i < |a| && a[i] == b[j];
    }
  }

  /** After the first pass, every stored pair is the pair of some entry and
      ends at 0, and no two entries' starts differ yet agree modulo 2^32: two
      such pairs with end 0 would share a key, so the second request would
      have received the first pair. */
  lemma {:induction false} FirstPassStarts(all: seq<IndexEntry>, ps: seq<ParsedLine>, pairs: map<int, OffsetPair>)
    requires FiledUnderOwnKeys(pairs) && FirstPassCache(all, ps, pairs)
    ensures DistinctMod32(StartsOf(all))
    ensures forall k :: k in pairs ==> pairs[k].Start in StartsOf(all) && pairs[k].End == 0
  {
    forall a, b | a in StartsOf(all) && b in StartsOf(all) && a % Two32 == b % Two32 ensures a == b {
      var i :| 0 <= i < |all| && all[i].offsets.Start == a;
      var j :| 0 <= j < |all| && all[j].offsets.Start == b;
      var ki, kj := Key(ps[i].start, 0), Key(ps[j].start, 0);
      assert Key(a, 0) == ki by { assert pairs[ki].End == 0; }
      assert Key(b, 0) == kj by { assert pairs[kj].End == 0; }
      KeyEqualIff(a, 0, b, 0);
    }
    forall k | k in pairs ensures pairs[k].Start in StartsOf(all) {
      var i :| 0 <= i < |ps| && k == Key(ps[i].start, 0);
      assert pairs[k] == all[i].offsets;
    }
  }

  /** What the second pass leaves in the cache, given what the first pass
      left in it (`pairs0`). */
  ghost predicate SecondPassCache(sorted: seq<IndexEntry>, pairs0: map<int, OffsetPair>, pairs: map<int, OffsetPair>) {
    FiledUnderOwnKeys(pairs) &&
    (forall k :: k in pairs0 ==> pairs0[k].Start in StartsOf(sorted) && pairs0[k].End == 0) &&
    (forall k :: k in pairs0 ==> k in pairs && pairs[k] == pairs0[k]) &&
    (forall k :: k in pairs && k !in pairs0 ==> CreatedBy(sorted, k, pairs[k]))
  }

  /** Even with key collisions, the pair entry `i` receives in the second pass
      keeps the entry's start, and its end is either the requested next start
      or the first pass's 0, agreeing with the next start modulo 2^32. */
  lemma {:induction false} SecondPassPair(sorted: seq<IndexEntry>, entries: seq<IndexEntry>, pairs0: map<int, OffsetPair>,
                       pairs: map<int, OffsetPair>, i: nat)
    requires SortedByStart(sorted) && DistinctMod32(StartsOf(sorted)) && SecondPassCache(sorted, pairs0, pairs)
    requires |entries| == |sorted| && Settled(entries, sorted, pairs, |sorted|) && i < |sorted|
    ensures entries[i].offsets.Start == sorted[i].offsets.Start
    ensures entries[i].offsets.End == 0 || entries[i].offsets.End == NextFrom(sorted, sorted[i].offsets.Start, i + 1)
    ensures entries[i].offsets.End % Two32 == NextFrom(sorted, sorted[i].offsets.Start, i + 1) % Two32
  {
    var x := sorted[i].offsets.Start;
    var n := NextFrom(sorted, x, i + 1);
    var k := EndKey(sorted, i);
    var q := pairs[k];
    assert entries[i].offsets == q;
    assert Key(q.Start, q.End) == Key(x, n);
    assert x in StartsOf(sorted);
    if k in pairs0 {
      assert q == pairs0[k];
      StartPinnedByKey(StartsOf(sorted), q, x, n);
    } else {
      var j :| 0 <= j < |sorted| && k == EndKey(sorted, j) &&
        q.Start == sorted[j].offsets.Start && q.End == NextFrom(sorted, sorted[j].offsets.Start, j + 1);
      assert q.Start in StartsOf(sorted);
      StartPinnedByKey(StartsOf(sorted), q, x, n);
      SameStartSameNext(sorted, x, i, j);
    }
  }

  /** A pair whose start is one of `starts`, filed under the key of a request
      for another of them, holds the requested start when `starts` has no two
      members agreeing modulo 2^32; its end agrees with the request's modulo
      2^32. */
  lemma StartPinnedByKey(starts: set<int>, q: OffsetPair, x: int, n: int)
    requires DistinctMod32(starts) && q.Start in starts && x in starts
    requires Key(q.Start, q.End) == Key(x, n)
    ensures q.Start == x && q.End % Two32 == n % Two32
  {
    KeyEqualIff(q.Start, q.End, x, n);
  }

  /** In a sorted table, two positions holding the same start find the same
      next greater start. */
  lemma {:induction false} SameStartSameNext(sorted: seq<IndexEntry>, x: int, i: nat, j: nat)
    requires SortedByStart(sorted) && i < |sorted| && j < |sorted|
    requires sorted[i].offsets.Start == x && sorted[j].offsets.Start == x
    ensures NextFrom(sorted, x, i + 1) == NextFrom(sorted, x, j + 1)
  {
    NextFromIsBlockEnd(sorted, x, i + 1);
    NextFromIsBlockEnd(sorted, x, j + 1);
    BlockEndUnique(StartsOf(sorted), x, NextFrom(sorted, x, i + 1), NextFrom(sorted, x, j + 1));
  }

  lemma {:induction false} SecondPassPairs(sorted: seq<IndexEntry>, entries: seq<IndexEntry>, pairs0: map<int, OffsetPair>,
                        pairs: map<int, OffsetPair>)
    requires SortedByStart(sorted) && DistinctMod32(StartsOf(sorted)) && SecondPassCache(sorted, pairs0, pairs)
    requires |entries| == |sorted| && Settled(entries, sorted, pairs, |sorted|)
    ensures forall i :: 0 <= i < |sorted| ==>
      && entries[i].offsets.Start == sorted[i].offsets.Start
      && (entries[i].offsets.End == 0 || entries[i].offsets.End == NextFrom(sorted, sorted[i].offsets.Start, i + 1))
      && entries[i].offsets.End % Two32 == NextFrom(sorted, sorted[i].offsets.Start, i + 1) % Two32
  {
    forall i | 0 <= i < |sorted|
      ensures entries[i].offsets.Start == sorted[i].offsets.Start
      ensures entries[i].offsets.End == 0 || entries[i].offsets.End == NextFrom(sorted, sorted[i].offsets.Start, i + 1)
      ensures entries[i].offsets.End % Two32 == NextFrom(sorted, sorted[i].offsets.Start, i + 1) % Two32
    {
      SecondPassPair(sorted, entries, pairs0, pairs, i);
    }
  }

  /** The shape of the table for every listing, collisions included: sorted
      by start, one shared pair per start, a non-zero end is the block's end,
      and every end agrees with the block's end modulo 2^32. */
  lemma {:induction false} TableShape(sorted: seq<IndexEntry>, entries: seq<IndexEntry>, pairs0: map<int, OffsetPair>,
                   pairs: map<int, OffsetPair>)
    requires SortedByStart(sorted) && DistinctMod32(StartsOf(sorted)) && SecondPassCache(sorted, pairs0, pairs)
    requires |entries| == |sorted| && Settled(entries, sorted, pairs, |sorted|)
    ensures SortedByStart(entries)
    ensures forall i, j ::
      (0 <= i < |entries| && 0 <= j < |entries| && entries[i].offsets.Start == entries[j].offsets.Start) ==>
      entries[i].offsets == entries[j].offsets
    ensures forall i :: 0 <= i < |entries| ==>
      entries[i].offsets.End == 0 || IsBlockEnd(StartsOf(entries), entries[i].offsets.Start, entries[i].offsets.End)
    ensures forall i, e :: 0 <= i < |entries| && IsBlockEnd(StartsOf(entries), entries[i].offsets.Start, e) ==>
      entries[i].offsets.End % Two32 == e % Two32
  {
    SecondPassPairs(sorted, entries, pairs0, pairs);
    assert StartsOf(entries) == StartsOf(sorted);
    AllBlockEnds(sorted);
    SharedPairs(sorted, entries, pairs);
    forall i, e | 0 <= i < |entries| && IsBlockEnd(StartsOf(entries), entries[i].offsets.Start, e)
      ensures entries[i].offsets.End % Two32 == e % Two32
    {
      var x := sorted[i].offsets.Start;
      BlockEndUnique(StartsOf(sorted), x, e, NextFrom(sorted, x, i + 1));
    }
  }
}
