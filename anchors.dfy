/** The post-processor run over the converted article HTML: the part of every
    `href="..."` value after its first `#` is lowercased, and `Category:`
    link targets are deleted. */
module Anchors {
  import opened GoStrings

  /** The attribute opening the scanner looks for. */
  const HrefOpen: string := "href=\""

  /** Link targets with this prefix are dropped. */
  const CategoryPrefix: string := "Category:"

  /** One href value after rewriting: a rune is lowercased exactly when it
      comes after the first `#` of the value. */
  function LowerFragment(v: string): (r: string)
    ensures |r| == |v|
    ensures forall k {:trigger r[k]} :: 0 <= k < |v| ==>
      r[k] == (if 0 <= IndexByte(v, '#') < k then LowerRune(v[k]) else v[k])
  {
    var h := IndexByte(v, '#');
    if h == -1 then v
    else v[..h + 1] + ToLower(v[h + 1..])
  }

  /** What the scanner produces for the text from its cursor on: text up to
      and including the next `href="` is copied and the value after it is
      handed to `RewriteValue`; text without `href="` is copied whole. The
      output is never longer than the input, since values are rewritten rune
      for rune and Category values are dropped. */
  function Rewrite(s: string): (r: string)
    ensures |r| <= |s|
    decreases |s|, 0
  {
    var h := Index(s, HrefOpen);
    if h == -1 then s
    else s[..h + 6] + RewriteValue(s[h + 6..])
  }

  /** The scanner just after an `href="`: an unterminated value is copied as
      it stands; a non-Category value goes through `LowerFragment` and the
      scan resumes at its closing quote; a Category value is dropped together
      with its closing quote. */
  function RewriteValue(rest: string): (r: string)
    ensures |r| <= |rest|
    decreases |rest|, 1
  {
    var e := IndexByte(rest, '"');
    if e == -1 then rest
    else
      var v := rest[..e];
      if !HasPrefix(v, CategoryPrefix) then LowerFragment(v) + Rewrite(rest[e..])
      else Rewrite(rest[e + 1..])
  }

  /** Text without `href="` is returned unchanged. */
  lemma {:induction false} RewriteNoHref(s: string)
    requires !Contains(s, HrefOpen)
    ensures Rewrite(s) == s
  {
  }

  /** In `t + href=" + w` with no `href="` inside `t`, the first `href="` is
      the one after `t`: no occurrence can straddle the end of `t`, because
      `h` appears in `href="` only at its start. */
  lemma {:induction false} FirstHrefIndex(t: string, w: string)
    requires !Contains(t, HrefOpen)
    ensures Index(t + HrefOpen + w, HrefOpen) == |t|
  {
    var s := t + HrefOpen + w;
    assert OccursAt(s, HrefOpen, |t|) by {
      forall k | 0 <= k < |HrefOpen| ensures s[|t| + k] == HrefOpen[k] {
        assert s[|t| + k] == (HrefOpen + w)[k];
      }
    }
    IndexIsFirst(t, HrefOpen);
    IndexIsFirst(s, HrefOpen);
    forall j | 0 <= j < |t| ensures !OccursAt(s, HrefOpen, j) {
      NoHrefStraddles(t, w, j);
    }
    var r := Index(s, HrefOpen);
    assert r != -1;
    assert !(r < |t|);
    assert !(r > |t|);
  }

  /** An occurrence starting inside `t` would either lie within `t` or put an
      `h` of the appended `href="` at one of its positions 1..5. */
  lemma {:induction false} NoHrefStraddles(t: string, w: string, j: int)
    requires 0 <= j < |t| && !OccursAt(t, HrefOpen, j)
    ensures !OccursAt(t + HrefOpen + w, HrefOpen, j)
  {
    var s := t + HrefOpen + w;
    if j + 6 <= |t| {
      var k :| 0 <= k < |HrefOpen| && t[j + k] != HrefOpen[k];
      assert s[j + k] == t[j + k];
    } else if j + 6 <= |s| {
      var k := |t| - j;
      assert s[j + k] == 'h';
      assert HrefOpen[k] != 'h';
    }
  }

  /** So the scanner copies `t` and `href="` and goes on with `w`. */
  lemma {:induction false} FirstHrefAfter(t: string, w: string)
    requires !Contains(t, HrefOpen)
    ensures Rewrite(t + HrefOpen + w) == t + HrefOpen + RewriteValue(w)
  {
    var s := t + HrefOpen + w;
    FirstHrefIndex(t, w);
    RewriteAt(s, |t|);
    assert s[..|t| + 6] == t + HrefOpen;
    assert s[|t| + 6..] == w;
  }

  /** A rune other than `h` in front of the text is copied and the rest is
      scanned as before; in particular the closing quote at which the scan
      resumes is copied verbatim. */
  lemma {:induction false} PlainRuneCopied(c: char, u: string)
    requires c != 'h'
    ensures Rewrite([c] + u) == [c] + Rewrite(u)
  {
    IndexAfterRune(c, u, HrefOpen);
    var h := Index(u, HrefOpen);
    if h != -1 {
      PlainRuneBeforeHref(c, u, h);
    }
  }

  /** The case of `PlainRuneCopied` where an `href="` follows. */
  lemma {:induction false} PlainRuneBeforeHref(c: char, u: string, h: int)
    requires h != -1 && Index(u, HrefOpen) == h && Index([c] + u, HrefOpen) == h + 1
    ensures Rewrite([c] + u) == [c] + Rewrite(u)
  {
    RewriteAt([c] + u, h + 1);
    RewriteAt(u, h);
    ConsSlices(c, u, h);
    Regroup3([c], u[..h + 6], RewriteValue(u[h + 6..]));
  }

  /** Slicing around an `href="` at `h` behind a leading rune. */
  lemma {:induction false} ConsSlices(c: char, u: string, h: int)
    requires 0 <= h && h + 6 <= |u|
    ensures ([c] + u)[h + 1 + 6..] == u[h + 6..]
    ensures ([c] + u)[..h + 1 + 6] == [c] + u[..h + 6]
  {
  }

  /** Unfolding `Rewrite` at a known first `href="`. */
  lemma {:induction false} RewriteAt(s: string, h: int)
    requires h != -1 && Index(s, HrefOpen) == h
    ensures h + 6 <= |s|
    ensures Rewrite(s) == s[..h + 6] + RewriteValue(s[h + 6..])
  {
  }

  /** The value after `href="` runs to the first quote. */
  lemma {:induction false} ValueEndsAtQuote(v: string, u: string)
    requires '"' !in v
    ensures IndexByte(v + "\"" + u, '"') == |v|
    ensures (v + "\"" + u)[..|v|] == v
    ensures (v + "\"" + u)[|v|..] == "\"" + u
    ensures (v + "\"" + u)[|v| + 1..] == u
  {
    IndexByteAfter(v, '"', u);
    var w := v + "\"" + u;
    assert w[..|v|] == v;
  }

  /** An unterminated href value: everything from `href="` on is copied. */
  lemma {:induction false} RewriteUnterminated(t: string, u: string)
    requires !Contains(t, HrefOpen) && '"' !in u
    ensures Rewrite(t + HrefOpen + u) == t + HrefOpen + u
  {
    FirstHrefAfter(t, u);
  }

  /** A non-Category href value: the text before it and `href="` are copied,
      the value is rewritten by `LowerFragment`, its closing quote is kept and
      the scan goes on after it. */
  lemma {:induction false} RewriteLink(t: string, v: string, u: string)
    requires !Contains(t, HrefOpen) && '"' !in v && !HasPrefix(v, CategoryPrefix)
    ensures Rewrite(t + HrefOpen + v + "\"" + u) == t + HrefOpen + LowerFragment(v) + "\"" + Rewrite(u)
  {
    var w := v + "\"" + u;
    assert t + HrefOpen + v + "\"" + u == t + HrefOpen + w;
    FirstHrefAfter(t, w);
    ValueLinkQuote(v, u);
    Regroup(t + HrefOpen, LowerFragment(v), "\"", Rewrite(u));
  }

  /** A terminated non-Category value is rewritten and its closing quote
      copied, and the scan goes on after the quote. */
  lemma {:induction false} ValueLinkQuote(v: string, u: string)
    requires '"' !in v && !HasPrefix(v, CategoryPrefix)
    ensures RewriteValue(v + "\"" + u) == LowerFragment(v) + ("\"" + Rewrite(u))
  {
    ValueLink(v, u);
    PlainRuneCopied('"', u);
  }

  /** The value step for a terminated non-Category value. */
  lemma {:induction false} ValueLink(v: string, u: string)
    requires '"' !in v && !HasPrefix(v, CategoryPrefix)
    ensures RewriteValue(v + "\"" + u) == LowerFragment(v) + Rewrite("\"" + u)
  {
    ValueEndsAtQuote(v, u);
  }

  /** A Category href value is deleted together with its closing quote; the
      `href="` before it stays. */
  lemma {:induction false} RewriteCategoryLink(t: string, v: string, u: string)
    requires !Contains(t, HrefOpen) && '"' !in v && HasPrefix(v, CategoryPrefix)
    ensures Rewrite(t + HrefOpen + v + "\"" + u) == t + HrefOpen + Rewrite(u)
  {
    var w := v + "\"" + u;
    assert t + HrefOpen + v + "\"" + u == t + HrefOpen + w;
    FirstHrefAfter(t, w);
    ValueEndsAtQuote(v, u);
  }

  /** A value without `#` is copied unchanged; with one, it is kept up to and
      including the first `#` and the rest is lowercased. */
  lemma {:induction false} LowerFragmentSplit(a: string, b: string)
    requires '#' !in a
    ensures LowerFragment(a) == a
    ensures LowerFragment(a + "#" + b) == a + "#" + ToLower(b)
  {
    var v := a + "#" + b;
    IndexByteAfter(a, '#', b);
    assert v[..|a| + 1] == a + "#";
    assert v[|a| + 1..] == b;
  }

  /** One round when the value after the `href="` at `h` is unterminated. */
  lemma {:induction false} StepUnterminated(s: string, h: int)
    requires h != -1 && Index(s, HrefOpen) == h
    requires IndexByte(s[h + 6..], '"') == -1
    ensures Rewrite(s) == s[..h + 6] + s[h + 6..]
  {
    RewriteAt(s, h);
  }

  /** One round on a non-Category value ending at `e` past the `href="`. */
  lemma {:induction false} StepLink(s: string, h: int, e: int)
    requires h != -1 && Index(s, HrefOpen) == h
    requires e != -1 && IndexByte(s[h + 6..], '"') == e
    requires !HasPrefix(s[h + 6..][..e], CategoryPrefix)
    ensures Rewrite(s) == s[..h + 6] + (LowerFragment(s[h + 6..][..e]) + Rewrite(s[h + 6..][e..]))
  {
    RewriteAt(s, h);
  }

  /** One round on a Category value ending at `e` past the `href="`. */
  lemma {:induction false} StepCategory(s: string, h: int, e: int)
    requires h != -1 && Index(s, HrefOpen) == h
    requires e != -1 && IndexByte(s[h + 6..], '"') == e
    requires HasPrefix(s[h + 6..][..e], CategoryPrefix)
    ensures Rewrite(s) == s[..h + 6] + Rewrite(s[h + 6..][e + 1..])
  {
    RewriteAt(s, h);
  }

  /** The rewrite of one non-Category href value inside the scanner's loop:
      the text after the first `#`, if any, is lowercased. */
  method LowerAfterHash(hrefValue: string) returns (r: string)
    ensures r == LowerFragment(hrefValue)
  {
    r := hrefValue;
    var hashIndex := IndexByte(hrefValue, '#');
    if hashIndex != -1 {
      r := hrefValue[..hashIndex + 1] + ToLower(hrefValue[hashIndex + 1..]);
    }
  }

  /** Output pieces written one after another, regrouped; kept as lemmas so
      that the scanner's loop does not reason about concatenation itself. */
  lemma {:induction false} Regroup3(a: string, b: string, c: string)
    ensures a + b + c == a + (b + c)
  {
  }

  lemma {:induction false} Regroup(a: string, b: string, c: string, d: string)
    ensures a + b + c + d == a + (b + (c + d))
  {
  }

  /** `lowercaseAnchors`: a cursor advances through the HTML, appending to the
      output each copied or rewritten piece, and every round moves it strictly
      forward. The cursor is kept as the text from it on (`html[start:]`), so
      that positions found in it are relative to the cursor as in the Go code
      before it adds `start`. */
  method LowercaseAnchors(html: string) returns (out: string)
    ensures out == Rewrite(html)
  {
    out := "";
    var rest := html;
    while true
      invariant out + Rewrite(rest) == Rewrite(html)
      decreases |rest|
    {
      var hrefIndex := Index(rest, HrefOpen);
      if hrefIndex == -1 {
        RewriteNoHref(rest);
        out := out + rest;
        return;
      }
      ghost var before := out;
      out := out + rest[..hrefIndex + 6];

      var value := rest[hrefIndex + 6..];
      var endQuote := IndexByte(value, '"');
      if endQuote == -1 {
        StepUnterminated(rest, hrefIndex);
        Regroup3(before, rest[..hrefIndex + 6], value);
        out := out + value;
        return;
      }

      var hrefValue := value[..endQuote];
      if !HasPrefix(hrefValue, CategoryPrefix) {
        StepLink(rest, hrefIndex, endQuote);
        hrefValue := LowerAfterHash(hrefValue);
        Regroup(before, rest[..hrefIndex + 6], hrefValue, Rewrite(value[endQuote..]));
        out := out + hrefValue;
      } else {
        StepCategory(rest, hrefIndex, endQuote);
        Regroup3(before, rest[..hrefIndex + 6], Rewrite(value[endQuote + 1..]));
        rest := value[endQuote + 1..];
        continue;
      }
      rest := value[endQuote..];
    }
  }
}
