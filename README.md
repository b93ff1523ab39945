# wikiseek core, modelled in Dafny

wikiseek serves articles from a Wikipedia multistream dump, a single bzip2
archive made of many independently compressed blocks, each holding about a
hundred pages. A companion listing has one line `offset:pageid:title` per
page, where `offset` is the byte offset of the block that holds the page.
From this listing the program builds an in-memory **offset index**. Each
entry points to a shared `OffsetPair` giving the start of its block and the
end of that block, where an end of 0 means "to the end of the file".

Over this table the program offers:

- a substring **search** on titles;
- a **title lookup** that tries an exact match first and then a
  case-insensitive one;
- an **href post-processor** over the converted article HTML: it lowercases
  link fragments and drops `Category:` links;
- the **range check** of the block extractor.

The Dafny project models these parts of `main.go`:

| file | module | models |
|---|---|---|
| `options.dfy` | `Options` | `Option` |
| `go_strings.dfy` | `GoStrings` | the `strings` functions the core calls (ASCII case mapping) |
| `go_strconv.dfy` | `GoStrconv` | `strconv.ParseInt(s, 10, 64)` / `strconv.Atoi` with the error ignored |
| `offsets.dfy` | `Offsets` | `OffsetPair`, the cache key, and the `offsetCache` class with its map |
| `index_build.dfy` | `IndexBuild` | the parse pass, the sort and the end-offset pass of `loadIndex` |
| `lookup.dfy` | `Lookup` | `searchIndex` and `findPageByTitle` |
| `anchors.dfy` | `Anchors` | `lowercaseAnchors` |
| `extract_range.dfy` | `ExtractRange` | the offset check and buffer length of `ExtractBzip2Range` |

Where the code mutates state, the model is imperative:

- The cache is a class whose method updates its `map` field.
- Both passes of the build, the two lookups and the href scanner are methods
  with loops.
- Each of these methods is proved against a specification function, or
  against the properties the code promises.

The pure parts are functions with lemmas.

### Intended behaviour the code does not deliver

The model follows the code in both cases:

- **The range `0..0`.** An end of 0 is meant to read from the start to the
  end of the file, so `0..0` should read the whole archive. The code
  allocates a buffer of length 0, so only an empty archive reads correctly
  (see `ExtractRange.ReadLengthAgrees`).
- **Table shape.** The table is meant to be sorted by start, with each
  block's end equal to the next block's start. The cache key keeps only the
  low 32 bits of the start and of the end, so two requests can share a key
  (`Offsets.KeyCollides`). The table is still sorted by start, and entries
  with equal starts still share one pair (`IndexBuild.TableShape`). Two
  things break. Lines whose starts agree modulo 2^32 get the pair of the
  first one, so the line of block 2^32 + 1 lands in block 1 and the table is
  no longer a permutation of the listing. An end that is a nonzero multiple
  of 2^32 hits the first pass's `(start, 0)` pair and reads back as 0.

Both failures are ruled out when the listing has *collision-free starts*:
no two of its starts agree modulo 2^32, and no nonzero start is a multiple
of 2^32 (`IndexBuild.KeysDistinct`). The model proves that archives below
4 GiB always have collision-free starts.

### Further points about the code

These describe the Go code. The first lies in I/O that the model leaves out.

- **Short reads.** A short final read is meant to be tolerated. `io.ReadFull`
  reports a short read as `io.ErrUnexpectedEOF`, not `io.EOF`, so the
  extractor rejects it.
- **Category links.** `lowercaseAnchors` removes the closing quote of a
  `Category:` value together with the value. The output keeps `href="` and
  continues directly with the text after the quote.
- **The title lookup.** It returns the address of a copy of the matching entry
  (the loop variable), not of the table's own element. It is modelled as an
  `Option<IndexEntry>` value.

## Model

| member | source | states |
|---|---|---|
| GoStrings.LowerRuneLowers | main.go:263 | the result is never an upper-case ASCII letter; a rune is unchanged exactly when it is not one; lowering twice is lowering once |
| GoStrings.LowerRuneFolds | main.go:286 | two runes lower alike exactly when they are equal or one is the upper-case ASCII letter of the other |
| GoStrings.ToLowerLowers | main.go:263-266 | the result holds no upper-case ASCII letter; a string is unchanged exactly when it holds none; `ToLower` is idempotent |
| GoStrings.ToLowerConcat | main.go:263-266 | lowering a concatenation concatenates the lowered parts |
| GoStrings.EqualFoldIsLowerEquality | main.go:286 | `EqualFold` holds exactly when the lowercased strings are equal, and equal strings fold-match |
| GoStrings.Index | main.go:299 | the result is -1 or a position at which the whole pattern fits inside the text |
| GoStrings.IndexIsFirst | main.go:299 | `Index` returns a position where the pattern occurs, no earlier position has an occurrence, and -1 exactly when none exists |
| GoStrings.PrefixAsSlice | main.go:320 | `HasPrefix` holds exactly when the leading slice equals the prefix, and an occurrence at j is a prefix of the suffix from j |
| GoStrings.IndexFrom | main.go:299 | scanning from position i gives -1 or a position at or after i where the whole pattern fits |
| GoStrings.IndexFromIsFirst | main.go:299 | the scan from i returns an occurrence, none lies between i and it, and -1 exactly when there is none from i on |
| GoStrings.IndexFromShift | main.go:299 | prefixing one rune shifts every scan result by one and keeps -1 |
| GoStrings.IndexAfterRune | main.go:299 | a leading rune that cannot start the pattern shifts its first occurrence by one |
| GoStrings.IndexByte | main.go:310 | the result is -1 or a position inside the text that holds the rune |
| GoStrings.IndexByteFrom | main.go:310 | the scan from i returns -1 or a position at or after i that holds the rune |
| GoStrings.IndexByteFromIsFirst | main.go:310 | no position between i and the scan's result holds the rune, and the scan gives -1 exactly when none from i on does |
| GoStrings.IndexByteIsFirst | main.go:310 | no position before `IndexByte`'s result holds the rune, and the result is -1 exactly when the rune is absent |
| GoStrings.IndexByteAfter | main.go:310 | when the rune is absent from a, its first position in a + rune + b is the length of a |
| GoStrings.ContainsMeansOccurs | main.go:266 | `Contains` holds exactly when the pattern occurs at some position |
| GoStrings.Cut | main.go:204-211 | absent exactly when the separator is missing; otherwise the input is before + separator + after, with no separator in before |
| GoStrings.CutAtFirst | main.go:204-211 | cutting splits at the first separator, however many follow |
| GoStrings.ReplaceRuneRemoves | main.go:275 | when the two runes differ, no `from` is left; a position holds `to` exactly when it held `from` or `to`; text without `from` is unchanged; replacing twice is replacing once |
| GoStrings.ReplaceRuneConcat | main.go:275 | replacing in a concatenation concatenates the replaced parts |
| GoStrconv.ScanDigits | main.go:223-224 | a successful scan never exceeds the largest uint64 |
| GoStrconv.ParseUint | main.go:223-224 | a parsed value never exceeds the largest uint64 |
| GoStrconv.ScanOfNonDigits | main.go:223-224 | text holding a rune that is not a digit never scans to a value |
| GoStrconv.ParseUintMeaning | main.go:223-224 | a value exactly for a non-empty run of digits that fits in a uint64, and then the number it denotes; a range error for a longer run of digits; a syntax error for the empty string |
| GoStrconv.ParseInt | main.go:223-224 | the result is always an int64, and the empty field gives 0 |
| GoStrconv.ScanSnoc | main.go:223-224 | scanning one more rune continues from the shorter scan: an error persists, and a value is extended by the next digit or fails |
| GoStrconv.ScanOfDigits | main.go:223-224 | a non-empty run of digits scans to its value, or to a range error when the value passes the uint64 bound |
| GoStrconv.ParseIntOfDecimal | main.go:223-224 | a rendered number, with or without a minus sign, parses back to itself, clamped to the int64 range |
| GoStrconv.ParseIntOfNonNumber | main.go:223-224 | a field that starts with neither a sign nor a digit becomes 0 |
| GoStrconv.ScanThroughNonDigit | main.go:223-224 | after a run of digits, a rune that is not a digit ends the scan with a syntax error unless the run already overflowed, whatever follows |
| GoStrconv.ParseUintStopsAtNonDigit | main.go:223-224 | digits that fit in a uint64, then a non-digit, then anything, is a syntax error |
| GoStrconv.ParseIntOfSyntaxError | main.go:223-224 | a syntax error on the text after the optional sign makes the field 0 |
| GoStrconv.ParseIntOfBareSign | main.go:223-224 | a field that is only `+` or `-` becomes 0 |
| GoStrconv.ParseIntMalformed | main.go:223-224 | an optional sign, digits that fit, then a rune that is neither a digit nor a leading sign, then anything, becomes 0 (`12a`, `-7x`, `+-1`) |
| Offsets.OffsetPair.constructor | main.go:93-96 | a new pair holds the given start and end |
| Offsets.Key | main.go:117 | the key is a 64-bit unsigned value |
| Offsets.KeyEqualIff | main.go:117 | two requests share a key exactly when their starts, and also their ends, agree modulo 2^32 |
| Offsets.KeyCollides | main.go:117 | the blocks starting at 1 and 2^32 + 1 with end 0 share a key |
| Offsets.KeyInjectiveBelow4G | main.go:117 | below 2^32 the key identifies start and end |
| Offsets.OffsetCache.constructor | main.go:109-113 | a new cache is empty and well formed |
| Offsets.OffsetCache.GetOrCreate | main.go:115-126 | on a hit, the stored pair is returned and the map is unchanged; on a miss, one fresh pair holding exactly `(start, end)` is added under its key; either way the result is filed under the request's key |
| IndexBuild.NamespacePrefix | main.go:214-219 | a title starts with `ns:`, for a name ns without `:`, exactly when the text before its first `:` is ns |
| IndexBuild.ReservedTitleNamespace | main.go:214-219 | the filter skips a title exactly when the text before its first `:` is one of the six namespace names |
| IndexBuild.ParseLine | main.go:203-224 | a line without `:` yields nothing; a kept title is not reserved and is the tail of the line after a `:`, with at least two runes before it; both numbers are int64 values |
| IndexBuild.ParseLineWellFormed | main.go:204-224 | a line `a:b:t` yields nothing when t is in a reserved namespace; otherwise it yields t whole with the two parsed numbers |
| IndexBuild.ParseLineMalformed | main.go:204-211 | a line with fewer than two `:` yields nothing |
| IndexBuild.ParseLines | main.go:196-231 | the first pass keeps at most one entry per line |
| IndexBuild.NewEntry | main.go:223-230 | the appended entry carries the line's page id and title and the pair now filed under the key of `(start, 0)`; on a hit the cache is unchanged; on a miss exactly one fresh pair `(start, 0)` is added under that key |
| IndexBuild.ParsePass | main.go:196-231 | the first pass keeps, in order, one entry per accepted line with that line's page id and title; entry i holds the pair filed under the key of its line's `(start, 0)`; every cached pair has end 0 and sits under the key of some kept line |
| IndexBuild.ParseStep | main.go:201-230 | one round of the first pass's loop parses line n, appends its entry when kept, and keeps the pass's invariant over the first n + 1 lines |
| IndexBuild.FirstPassStarts | main.go:196-231 | after the first pass the entries' starts are pairwise distinct modulo 2^32, and every cached pair holds one of them with end 0 |
| IndexBuild.InsertByStart | main.go:233-235 | inserting into a sorted table gives a sorted table with one more element and the same elements plus the new one |
| IndexBuild.SortByStart | main.go:233-235 | the result is sorted by start and is a permutation of the input |
| IndexBuild.NextFrom | main.go:241-247 | the next offset is 0 or a start of the table |
| IndexBuild.NextFromIsBlockEnd | main.go:241-247 | in a sorted table, the first greater start after a position is the least start greater than its own, or 0 when there is none |
| IndexBuild.NextOffset | main.go:241-247 | the inner loop returns the first start after position i that is greater than entry i's start, or 0 |
| IndexBuild.KeysDistinctBelow4G | main.go:117 | a listing whose offsets lie below 4 GiB has collision-free starts |
| IndexBuild.PinnedByKey | main.go:117-121 | among collision-free starts, a stored pair whose key matches a request holds exactly the request |
| IndexBuild.EndPair | main.go:249 | on a hit the cache is unchanged; on a miss exactly one fresh pair holding `(start, next)` is added under its key; either way the result is filed under that key |
| IndexBuild.EndPass | main.go:237-250 | every entry keeps its page id and title and holds the pair filed under the key of its sorted start and next greater start; every earlier pair stays, and every new pair holds some entry's start and next greater start |
| IndexBuild.SettleEntry | main.go:238-249 | one round of the outer loop settles entry i and keeps the pass's invariant: later entries untouched, earlier pairs kept, new pairs made by some entry's request |
| IndexBuild.SecondPassPair | main.go:237-250 | for every listing, each entry keeps its sorted start, and its end is 0 or its next greater start and agrees with that start modulo 2^32 |
| IndexBuild.StartPinnedByKey | main.go:117-121 | among starts distinct modulo 2^32, a pair found under a request's key holds the requested start, and its end agrees with the requested end modulo 2^32 |
| IndexBuild.SameStartSameNext | main.go:241-247 | in a sorted table, positions with equal starts find the same next greater start |
| IndexBuild.TableShape | main.go:196-250 | for every listing the table is sorted by start, entries with equal starts share one pair, and each end is 0 or the end of its block and agrees with that block end modulo 2^32 |
| IndexBuild.EndPairsExact | main.go:237-250 | with collision-free starts, each entry's pair holds its own start and the next greater start |
| IndexBuild.AllBlockEnds | main.go:237-250 | in a sorted table, the next offset of every position is the end of its block |
| IndexBuild.BoundaryEnd | main.go:237-250 | where the start increases between neighbours, the first one ends where the second begins |
| IndexBuild.LastGroupEnd | main.go:237-250 | the entries with the greatest start end at 0 (end of file) |
| IndexBuild.GroupBoundaries | main.go:237-250 | in a sorted table where every entry has the end of its block, each group ends where the next begins, and the last group ends at 0 |
| IndexBuild.SharedPairs | main.go:249 | entries with equal starts receive the identical pair |
| IndexBuild.PassesTable | main.go:196-250 | the built table has one entry per kept line, carries exactly their page ids and titles, and uses only listed starts |
| IndexBuild.CollisionFreeTable | main.go:196-250 | with collision-free starts the table is a permutation of the kept lines and gives each entry exactly the end of its block |
| IndexBuild.LoadIndex | main.go:196-250 | for every listing: one entry per kept line with the same page ids and titles and listed starts only, sorted by start, one shared pair per start, each end 0 or its block end and agreeing with it modulo 2^32; with collision-free starts also a permutation of the parsed lines with exact block ends |
| Lookup.Matching | main.go:262-271 | the filter keeps only table entries whose lowercased title contains the query, and keeps every such entry |
| Lookup.MatchingAppend | main.go:265-269 | the filter preserves table order: filtering a concatenation concatenates the filtered parts |
| Lookup.MatchingEmptyQuery | main.go:262-271 | the empty query returns the whole table |
| Lookup.SearchIndex | main.go:262-271 | the loop returns exactly the filter for the lowercased query |
| Lookup.ChosenIsUnique | main.go:273-291 | the two-phase choice picks at most one position |
| Lookup.FindPageByTitle | main.go:273-291 | with `_` turned into spaces: absent exactly when no title matches up to case; otherwise the first exact match, or if there is none, the first case-insensitive match |
| Anchors.LowerFragment | main.go:321-324 | the value keeps its length; runes up to and including the first `#` are kept and later ones are lowercased |
| Anchors.LowerFragmentSplit | main.go:321-324 | a value without `#` is copied; `a#b` becomes `a#` + lowercased `b` |
| Anchors.LowerAfterHash | main.go:321-324 | the in-loop rewrite of one value equals `LowerFragment` |
| Anchors.Rewrite | main.go:293-336 | the output is never longer than the input |
| Anchors.RewriteValue | main.go:310-332 | the output for the text after an `href="` is never longer than that text |
| Anchors.RewriteNoHref | main.go:299-302 | text without `href="` is returned unchanged |
| Anchors.FirstHrefAfter | main.go:299-307 | the text before the first `href="` and the `href="` itself are copied verbatim |
| Anchors.PlainRuneCopied | main.go:307 | a leading rune other than `h` is copied, and the rest is scanned as before |
| Anchors.RewriteUnterminated | main.go:310-313 | a value with no closing quote is copied through to the end |
| Anchors.RewriteLink | main.go:318-332 | a non-Category value is rewritten by `LowerFragment`, its closing quote is kept, and the scan resumes after it |
| Anchors.RewriteCategoryLink | main.go:320-329 | a `Category:` value is removed with its closing quote, and `href="` is kept |
| Anchors.StepUnterminated | main.go:307-313 | the round on an unterminated value copies everything from the cursor |
| Anchors.StepLink | main.go:307-332 | the round on a non-Category value writes text, value and then the scan from the quote on |
| Anchors.StepCategory | main.go:307-329 | the round on a Category value writes the text and resumes after the quote |
| Anchors.LowercaseAnchors | main.go:293-336 | the scanner's output equals `Rewrite` of the input; the loop terminates because the unscanned suffix shrinks every round |
| ExtractRange.AcceptedExactly | main.go:36-38 | the guard accepts exactly a non-negative start with either end 0 or an end past the start |
| ExtractRange.BufferLength | main.go:50 | for a range the guard accepts, the buffer length is positive exactly when the end is bounded |
| ExtractRange.BoundedBufferPositive | main.go:36-50 | an accepted bounded range gives a positive buffer length reaching exactly to the end |
| ExtractRange.UnboundedBufferNegative | main.go:36-50 | end 0 with a positive start passes the guard, and the buffer length is then negative |
| ExtractRange.LastGroupUnreadable | main.go:36-50 | the table's last block with a positive start has end 0, passes the guard, and gets a negative buffer length |
| ExtractRange.ReadLength | main.go:36-50 | the intended read length: none exactly when the guard refuses; the block's length for a bounded end; the rest of the file for end 0 |
| ExtractRange.ReadLengthAgrees | main.go:36-50 | the intended length equals the allocated one on bounded ranges and exists wherever the allocated one is negative |

## Left out

- File I/O, seeking and bzip2 decompression in `ExtractBzip2Range` and `loadIndex` (main.go:40-61, 175-199). These are OS calls and foreign codecs. The build is modelled over a sequence of listing lines.
- Progress printing and the summary message of `loadIndex` (main.go:198-200, 252) are output only.
- `ExtractPageText` (main.go:65-90) is XML decoding through `encoding/xml`.
- `saveIndexCache` / `loadIndexCache` (main.go:137-173) are `gob` and `gzip` serialisation.
- `isRedirect` (main.go:338-349) relies on the Go regular-expression engine.
- `getRandomEntries` (main.go:417-436) draws from `math/rand`.
- HTTP handlers, the pandoc subprocess and its goroutine, templates and `main` (main.go:351-510) are network, process and concurrency plumbing.
- wikiconverter.go is an identity stub and is not part of this model.
- GoStrings.LowerRune: ASCII only. The Unicode tables of `strings.ToLower` and `strings.EqualFold` are not modelled. Go lowercases rune for rune, so the rune count that the model measures is the same either way; only the byte length of a string can change, and bytes are not modelled (see the line on byte strings). The length contracts of `Anchors.LowerFragment`, `Anchors.Rewrite` and `Anchors.RewriteValue` count runes.
- Go strings are byte strings; the model treats them as sequences of runes (`seq<char>`). Byte offsets are not represented, and neither is invalid UTF-8: `strings.ToLower` turns an invalid byte into U+FFFD, and `strings.EqualFold` treats two invalid bytes as equal.
- GoStrings.ReplaceRune: modelled for one-rune patterns only, the only use in the core.
- GoStrconv.ParseInt: the `int` of `strconv.Atoi` is taken to be 64 bits wide. The error values are not modelled, because the code ignores them.
- IndexBuild.LoadIndex: the permutation of the parsed lines and the exact block ends are stated only for a listing with collision-free starts. Without that condition the model states that each end is 0 or the block end and agrees with it modulo 2^32. After a collision the first pass gives a later line the pair of an earlier block, and an end that is a nonzero multiple of 2^32 reads back as 0.
- IndexBuild.SortByStart: `sort.Slice` is specified only as "sorted and a permutation". Its order among equal starts is unspecified.
- The reference identity that `getOrCreate` gives is modelled by object identity of `OffsetPair`. Entries are values holding a reference to it. The in-place reassignment `allEntries[i].Offsets = …` is modelled as building a new sequence of entries.
- Anchors.LowercaseAnchors: the `strings.Builder` is modelled as a string grown by appending. The byte cursor `start` is modelled as the unscanned suffix `html[start:]`.

## Findings

| source | as written | input that shows it | evidently intended | confidence | as-written member | corrected member |
|---|---|---|---|---|---|---|
| main.go:36-50 | the offset guard lets `end == 0` through, and then `make([]byte, endOffset-startOffset)` gets a negative length, which makes Go panic | `ExtractBzip2Range(f, s, 0)` with `s > 0`: the last block of every multi-block archive, whose end the build sets to 0 | end 0 reads from `start` to the end of the file | not executed | ExtractRange.UnboundedBufferNegative, ExtractRange.LastGroupUnreadable | ExtractRange.ReadLength |
