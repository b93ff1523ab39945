/** The parts of Go's `strings` package that the core calls, over strings
    modelled as sequences of runes. Case mapping is ASCII-only: the Unicode
    tables behind `strings.ToLower` and `strings.EqualFold` are not modelled. */
module GoStrings {
  import opened Options

  /** `unicode.ToLower` restricted to ASCII letters. */
  function LowerRune(c: char): (r: char)
    ensures 'A' <= c <= 'Z' ==> r as int == c as int + 32
    ensures !('A' <= c <= 'Z') ==> r == c
  {
    if 'A' <= c <= 'Z' then (c as int + 32) as char else c
  }

  /** `strings.ToLower`, rune by rune. */
  function ToLower(s: string): (r: string)
    ensures |r| == |s|
    ensures forall i {:trigger r[i]} :: 0 <= i < |s| ==> r[i] == LowerRune(s[i])
  {
    seq(|s|, i requires 0 <= i < |s| => LowerRune(s[i]))
  }

  /** Lowercasing leaves no upper-case letter, changes exactly the upper-case
      letters, and a second application changes nothing. */
  lemma LowerRuneLowers(c: char)
    ensures !('A' <= LowerRune(c) <= 'Z')
    ensures LowerRune(c) == c <==> !('A' <= c <= 'Z')
    ensures LowerRune(LowerRune(c)) == LowerRune(c)
  {
  }

  /** Two runes lowercase to the same rune exactly when they are equal or are
      the two cases of one ASCII letter. */
  lemma LowerRuneFolds(c: char, d: char)
    ensures LowerRune(c) == LowerRune(d) <==>
      c == d ||
      ('A' <= c <= 'Z' && d as int == c as int + 32) ||
      ('A' <= d <= 'Z' && c as int == d as int + 32)
  {
  }

  /** `ToLower` leaves no upper-case letter, is the identity exactly on strings
      without one, and is idempotent. */
  lemma {:induction false} ToLowerLowers(s: string)
    ensures forall i :: 0 <= i < |s| ==> !('A' <= ToLower(s)[i] <= 'Z')
    ensures ToLower(s) == s <==> forall i :: 0 <= i < |s| ==> !('A' <= s[i] <= 'Z')
    ensures ToLower(ToLower(s)) == ToLower(s)
  {
    forall i | 0 <= i < |s| ensures !('A' <= ToLower(s)[i] <= 'Z') && ToLower(ToLower(s))[i] == ToLower(s)[i] {
      LowerRuneLowers(s[i]);
    }
    if forall i :: 0 <= i < |s| ==> !('A' <= s[i] <= 'Z') {
      forall i | 0 <= i < |s| ensures ToLower(s)[i] == s[i] {
        LowerRuneLowers(s[i]);
      }
    }
    if ToLower(s) == s {
      forall i | 0 <= i < |s| ensures !('A' <= s[i] <= 'Z') {
        assert ToLower(s)[i] == s[i];
        LowerRuneLowers(s[i]);
      }
    }
  }

  /** `ToLower` works rune by rune, so it distributes over concatenation. */
  lemma {:induction false} ToLowerConcat(a: string, b: string)
    ensures ToLower(a + b) == ToLower(a) + ToLower(b)
  {
    forall i | 0 <= i < |a| + |b| ensures ToLower(a + b)[i] == (ToLower(a) + ToLower(b))[i] {
      if i < |a| { assert (a + b)[i] == a[i]; } else { assert (a + b)[i] == b[i - |a|]; }
    }
  }

  /** `strings.EqualFold`: equal rune by rune up to case. */
  predicate EqualFold(a: string, b: string) {
    |a| == |b| && forall i :: 0 <= i < |a| ==> LowerRune(a[i]) == LowerRune(b[i])
  }

  /** Case-insensitive equality agrees with equality of the lowercased strings,
      and every string matches itself. */
  lemma {:induction false} EqualFoldIsLowerEquality(a: string, b: string)
    ensures EqualFold(a, b) <==> ToLower(a) == ToLower(b)
    ensures a == b ==> EqualFold(a, b)
  {
    if ToLower(a) == ToLower(b) {
      assert |a| == |b|;
      forall i | 0 <= i < |a| ensures LowerRune(a[i]) == LowerRune(b[i]) {
        assert ToLower(a)[i] == ToLower(b)[i];
      }
    }
  }

  /** `strings.HasPrefix`, compared rune by rune. */
  predicate HasPrefix(s: string, prefix: string) {
    |prefix| <= |s| && forall k :: 0 <= k < |prefix| ==> s[k] == prefix[k]
  }

  /** `pat` occurs in `s` starting at position `j`. */
  predicate OccursAt(s: string, pat: string, j: int)
    requires 0 <= j <= |s|
  {
    j + |pat| <= |s| && forall k :: 0 <= k < |pat| ==> s[j + k] == pat[k]
  }

  /** The rune-by-rune forms agree with the slice forms. */
  lemma {:induction false} PrefixAsSlice(s: string, pat: string, j: int)
    requires 0 <= j <= |s|
    ensures HasPrefix(s, pat) <==> |pat| <= |s| && s[..|pat|] == pat
    ensures OccursAt(s, pat, j) <==> HasPrefix(s[j..], pat)
  {
    if |pat| <= |s| && HasPrefix(s, pat) {
      assert s[..|pat|] == pat;
    }
  }

  /** `strings.Index`: the position of the first occurrence of `pat` in `s`,
      or -1 when there is none. */
  function Index(s: string, pat: string): (r: int)
    ensures -1 <= r <= |s|
    ensures r >= 0 ==> r + |pat| <= |s|
  {
    IndexFrom(s, pat, 0)
  }

  /** The scan behind `Index`, trying the positions from `i` on in turn. */
  function IndexFrom(s: string, pat: string, i: nat): (r: int)
    requires i <= |s|
    ensures r == -1 || i <= r <= |s|
    ensures r >= 0 ==> r + |pat| <= |s|
    decreases |s| - i
  {
    if OccursAt(s, pat, i) then i
    else if i == |s| then -1
    else IndexFrom(s, pat, i + 1)
  }

  /** The scan from `i` stops at the first occurrence from `i` on, and gives
      -1 exactly when there is none. */
  lemma {:induction false} IndexFromIsFirst(s: string, pat: string, i: nat)
    requires i <= |s|
    ensures IndexFrom(s, pat, i) >= 0 ==> OccursAt(s, pat, IndexFrom(s, pat, i))
    ensures forall j :: i <= j < IndexFrom(s, pat, i) ==> !OccursAt(s, pat, j)
    ensures IndexFrom(s, pat, i) == -1 <==> forall j :: i <= j <= |s| ==> !OccursAt(s, pat, j)
    decreases |s| - i
  {
    if !OccursAt(s, pat, i) && i < |s| {
      IndexFromIsFirst(s, pat, i + 1);
    }
  }

  /** `Index` finds the first occurrence, and -1 exactly when there is none. */
  lemma {:induction false} IndexIsFirst(s: string, pat: string)
    ensures Index(s, pat) >= 0 ==> OccursAt(s, pat, Index(s, pat))
    ensures forall j :: 0 <= j < Index(s, pat) ==> !OccursAt(s, pat, j)
    ensures Index(s, pat) == -1 <==> forall j :: 0 <= j <= |s| ==> !OccursAt(s, pat, j)
  {
    IndexFromIsFirst(s, pat, 0);
  }

  /** Scanning behind a leading rune visits the same positions, shifted by one. */
  lemma {:induction false} IndexFromShift(c: char, u: string, pat: string, i: nat)
    requires i <= |u|
    ensures IndexFrom([c] + u, pat, i + 1) ==
      if IndexFrom(u, pat, i) == -1 then -1 else IndexFrom(u, pat, i) + 1
    decreases |u| - i
  {
    var s := [c] + u;
    assert OccursAt(s, pat, i + 1) == OccursAt(u, pat, i);
    if !OccursAt(u, pat, i) && i < |u| {
      IndexFromShift(c, u, pat, i + 1);
    }
  }

  /** A leading rune that cannot start `pat` shifts its first occurrence by
      one. */
  lemma {:induction false} IndexAfterRune(c: char, u: string, pat: string)
    requires |pat| > 0 && c != pat[0]
    ensures Index([c] + u, pat) == if Index(u, pat) == -1 then -1 else Index(u, pat) + 1
  {
    assert !OccursAt([c] + u, pat, 0) by {
      assert ([c] + u)[0 + 0] == c;
    }
    IndexFromShift(c, u, pat, 0);
  }

  /** `strings.IndexByte`: the position of the first `c` in `s`, or -1. */
  function IndexByte(s: string, c: char): (r: int)
    ensures -1 <= r < |s|
    ensures r >= 0 ==> s[r] == c
  {
    IndexByteFrom(s, c, 0)
  }

  /** The scan behind `IndexByte`, trying the positions from `i` on in turn. */
  function IndexByteFrom(s: string, c: char, i: nat): (r: int)
    requires i <= |s|
    ensures r == -1 || i <= r < |s|
    ensures r >= 0 ==> s[r] == c
    decreases |s| - i
  {
    if i == |s| then -1
    else if s[i] == c then i
    else IndexByteFrom(s, c, i + 1)
  }

  /** The scan from `i` stops at the first `c` from `i` on, and gives -1
      exactly when there is none. */
  lemma {:induction false} IndexByteFromIsFirst(s: string, c: char, i: nat)
    requires i <= |s|
    ensures forall j :: i <= j < IndexByteFrom(s, c, i) ==> s[j] != c
    ensures IndexByteFrom(s, c, i) == -1 <==> forall j :: i <= j < |s| ==> s[j] != c
    decreases |s| - i
  {
    if i < |s| && s[i] != c {
      IndexByteFromIsFirst(s, c, i + 1);
    }
  }

  /** `IndexByte` finds the first `c`, and gives -1 exactly when `s` has none. */
  lemma {:induction false} IndexByteIsFirst(s: string, c: char)
    ensures forall j :: 0 <= j < IndexByte(s, c) ==> s[j] != c
    ensures IndexByte(s, c) == -1 <==> forall j :: 0 <= j < |s| ==> s[j] != c
  {
    IndexByteFromIsFirst(s, c, 0);
  }

  /** The first `c` of `a + [c] + b` is the one after `a` when `a` has none. */
  lemma {:induction false} IndexByteAfter(a: string, c: char, b: string)
    requires c !in a
    ensures IndexByte(a + [c] + b, c) == |a|
  {
    var s := a + [c] + b;
    forall j | 0 <= j < |a| ensures s[j] != c {
      assert s[j] == a[j];
    }
    assert s[|a|] == c;
    IndexByteIsFirst(s, c);
  }

  /** `strings.Contains`. */
  predicate Contains(s: string, sub: string) {
    Index(s, sub) >= 0
  }

  /** `strings.Contains` holds exactly when `sub` occurs at some position. */
  lemma {:induction false} ContainsMeansOccurs(s: string, sub: string)
    ensures Contains(s, sub) <==> exists j :: 0 <= j <= |s| && OccursAt(s, sub, j)
  {
    IndexIsFirst(s, sub);
  }

  /** `strings.Cut(s, sep)` for a one-rune separator: the text before and after
      the first `sep`, or None when `s` has none. */
  function Cut(s: string, sep: char): (r: Option<(string, string)>)
    ensures r.None? <==> sep !in s
    ensures r.Some? ==> s == r.value.0 + [sep] + r.value.1 && sep !in r.value.0
  {
    IndexByteIsFirst(s, sep);
    var i := IndexByte(s, sep);
    if i == -1 then None
    else
      assert s == s[..i] + [sep] + s[i + 1..];
      assert forall j :: 0 <= j < i ==> s[..i][j] != sep;
      Some((s[..i], s[i + 1..]))
  }

  /** Cutting at the first separator is determined by the text before it. */
  lemma {:induction false} CutAtFirst(a: string, sep: char, b: string)
    requires sep !in a
    ensures Cut(a + [sep] + b, sep) == Some((a, b))
  {
    var s := a + [sep] + b;
    IndexByteAfter(a, sep, b);
    assert s[..|a|] == a && s[|a| + 1..] == b;
  }

  /** `strings.ReplaceAll(s, from, to)` for one-rune `from` and `to`. */
  function ReplaceRune(s: string, from: char, to: char): (r: string)
    ensures |r| == |s|
    ensures forall i {:trigger r[i]} :: 0 <= i < |s| ==> r[i] == (if s[i] == from then to else s[i])
  {
    seq(|s|, i requires 0 <= i < |s| => if s[i] == from then to else s[i])
  }

  /** After replacing, no `from` is left (unless it is also `to`), `to` stands
      exactly where `from` or `to` stood, and a string without `from` is
      returned unchanged. */
  lemma {:induction false} ReplaceRuneRemoves(s: string, from: char, to: char)
    ensures from != to ==> forall i :: 0 <= i < |s| ==> ReplaceRune(s, from, to)[i] != from
    ensures forall i :: 0 <= i < |s| ==> (ReplaceRune(s, from, to)[i] == to <==> s[i] == from || s[i] == to)
    ensures (forall i :: 0 <= i < |s| ==> s[i] != from) ==> ReplaceRune(s, from, to) == s
    ensures ReplaceRune(ReplaceRune(s, from, to), from, to) == ReplaceRune(s, from, to)
  {
  }

  /** Replacement works rune by rune, so it distributes over concatenation. */
  lemma {:induction false} ReplaceRuneConcat(a: string, b: string, from: char, to: char)
    ensures ReplaceRune(a + b, from, to) == ReplaceRune(a, from, to) + ReplaceRune(b, from, to)
  {
    forall i | 0 <= i < |a| + |b|
      ensures ReplaceRune(a + b, from, to)[i] == (ReplaceRune(a, from, to) + ReplaceRune(b, from, to))[i]
    {
      if i < |a| { assert (a + b)[i] == a[i]; } else { assert (a + b)[i] == b[i - |a|]; }
    }
  }
}
